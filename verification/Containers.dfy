/** The containers side by side: after any sequence of insertions and
    removals they answer alike. */
module Containers {
  import opened Options
  import opened Keys
  import HamtMap
  import HamtSet
  import LinkedMap
  import SortedMap

  datatype Op<K, V> = Put(key: K, val: V) | Del(key: K)

  /** The reference: what a run of operations leaves in an association list. */
  function Replay<K(!new), V>(ops: KeyOps<K>, run: seq<Op<K, V>>): seq<(K, V)>
    decreases |run|
  {
    if |run| == 0 then [] else
      var before := Replay(ops, run[..|run| - 1]);
      match run[|run| - 1]
      case Put(k, v) => AssocInsert(ops, before, k, v)
      case Del(k) => AssocRemove(ops, before, k)
  }

  /** Two contents that answer every query alike. */
  ghost predicate Alike<K(!new), V>(ops: KeyOps<K>, a: seq<(K, V)>, b: seq<(K, V)>) {
    && |a| == |b|
    && forall q :: Get(ops, a, q) == Get(ops, b, q)
  }

  lemma AbsentAlikeToo<K(!new), V>(ops: KeyOps<K>, a: seq<(K, V)>, b: seq<(K, V)>, key: K)
    requires Alike(ops, a, b)
    ensures Absent(ops, a, key) <==> Absent(ops, b, key)
  {
    FindAbsent(ops, a, key);
    FindAbsent(ops, b, key);
    assert Get(ops, a, key) == Get(ops, b, key);
  }

  /** `after` answers `q` the way `before` does with `op` applied. */
  ghost predicate Answers<K(!new), V>(ops: KeyOps<K>, op: Op<K, V>, before: seq<(K, V)>, after: seq<(K, V)>, q: K) {
    Get(ops, after, q) ==
      if !ops.eq(op.key, q) then Get(ops, before, q) else if op.Put? then Some(op.val) else None
  }

  /** The length `op` leaves. */
  ghost function LengthAfter<K(!new), V>(ops: KeyOps<K>, op: Op<K, V>, before: seq<(K, V)>): int {
    if Absent(ops, before, op.key) then |before| + (if op.Put? then 1 else 0)
    else |before| - (if op.Put? then 0 else 1)
  }

  lemma ReplayStep<K(!new), V>(ops: KeyOps<K>, run: seq<Op<K, V>>, i: nat, q: K)
    requires ops.Lawful() && i < |run| && Distinct(ops, Replay(ops, run[..i]))
    ensures var before, after := Replay(ops, run[..i]), Replay(ops, run[..i + 1]);
      && Distinct(ops, after)
      && Answers(ops, run[i], before, after, q)
      && |after| == LengthAfter(ops, run[i], before)
  {
    assert run[..i + 1][..i] == run[..i];
    match run[i]
    case Put(k, v) => AssocInsertGet(ops, Replay(ops, run[..i]), k, v, q);
    case Del(k) => AssocRemoveGet(ops, Replay(ops, run[..i]), k, q);
  }

  lemma {:induction false} ReplayDistinct<K(!new), V>(ops: KeyOps<K>, run: seq<Op<K, V>>)
    requires ops.Lawful()
    ensures Distinct(ops, Replay(ops, run))
    decreases |run|
  {
    if |run| > 0 {
      var n := |run| - 1;
      ReplayDistinct(ops, run[..n]);
      assert run[..n + 1] == run;
      ReplayStep(ops, run, n, run[n].key);
    }
  }

  /** A container that changes its answers the way the reference does stays
      alike: the step of every run below. */
  lemma StepAlike<K(!new), V>(ops: KeyOps<K>, run: seq<Op<K, V>>, i: nat, before: seq<(K, V)>, after: seq<(K, V)>)
    requires ops.Lawful() && i < |run| && Alike(ops, before, Replay(ops, run[..i]))
    requires forall q :: Answers(ops, run[i], before, after, q)
    requires |after| == LengthAfter(ops, run[i], before)
    ensures Alike(ops, after, Replay(ops, run[..i + 1]))
  {
    hide KeyOps.Lawful, Get, Absent, Distinct;
    var want := Replay(ops, run[..i + 1]);
    ReplayDistinct(ops, run[..i]);
    forall q ensures Get(ops, after, q) == Get(ops, want, q) {
      ReplayStep(ops, run, i, q);
      assert Answers(ops, run[i], before, after, q);
      assert Get(ops, before, q) == Get(ops, Replay(ops, run[..i]), q);
    }
    AbsentAlikeToo(ops, before, Replay(ops, run[..i]), run[i].key);
    ReplayStep(ops, run, i, run[i].key);
  }

  /** The hash trie over a whole run. */
  method RunHamt<K(!new), V>(ops: KeyOps<K>, run: seq<Op<K, V>>) returns (m: HamtMap.Map<K, V>)
    requires ops.Lawful()
    ensures m.Reachable() && m.ops == ops && Alike(ops, m.Contents(), Replay(ops, run))
  {
    hide KeyOps.Lawful, Get, Absent, Distinct;
    m := HamtMap.MapNew(ops);
    for i := 0 to |run|
      invariant m.Reachable() && m.ops == ops && Alike(ops, m.Contents(), Replay(ops, run[..i]))
    {
      ghost var before := m.Contents();
      match run[i] {
        case Put(k, v) =>
          var next, _ := HamtMap.MapInsert(m, k, v);
          m := next;
        case Del(k) =>
          var next, _ := HamtMap.MapRemove(m, k);
          m := next;
      }
      StepAlike(ops, run, i, before, m.Contents());
    }
    assert run[..|run|] == run;
  }

  /** The linked map over a whole run holds exactly the reference list. */
  method RunLinked<K(!new), V>(ops: KeyOps<K>, run: seq<Op<K, V>>) returns (m: LinkedMap.LinkedMap<K, V>)
    requires ops.Lawful()
    ensures m.Valid() && m.ops == ops && m.Contents() == Replay(ops, run)
  {
    hide KeyOps.Lawful, Get, Absent, Distinct;
    m := LinkedMap.LinkedMapNew(ops);
    for i := 0 to |run|
      invariant m.Valid() && m.ops == ops && m.Contents() == Replay(ops, run[..i])
    {
      assert run[..i + 1][..i] == run[..i];
      match run[i] {
        case Put(k, v) => m := LinkedMap.LinkedMapInsert(m, k, v);
        case Del(k) => m := LinkedMap.LinkedMapRemove(m, k);
      }
    }
    assert run[..|run|] == run;
  }

  /** The order's ties are the equal keys. */
  ghost predicate SameEquality<K(!new)>(ops: KeyOps<K>, order: SortedMap.Order<K>) {
    forall a, b :: ops.eq(a, b) <==> order.cmp(a, b) == 0
  }

  lemma {:induction false} SameSearch<K(!new), V>(ops: KeyOps<K>, order: SortedMap.Order<K>, pairs: seq<(K, V)>, q: K)
    requires SameEquality(ops, order)
    ensures Find(order.Ops(), pairs, q) == Find(ops, pairs, q)
    decreases |pairs|
  {
    if |pairs| > 0 {
      SameSearch(ops, order, pairs[1..], q);
    }
  }

  /** The sorted map over a whole run. */
  method RunSorted<K(!new), V>(ops: KeyOps<K>, order: SortedMap.Order<K>, run: seq<Op<K, V>>)
      returns (m: SortedMap.SortedMap<K, V>)
    requires ops.Lawful() && order.Lawful() && SameEquality(ops, order)
    ensures m.Valid() && m.order == order && Alike(ops, m.Contents(), Replay(ops, run))
  {
    hide KeyOps.Lawful, SortedMap.Order.Lawful, Get, Absent, Distinct, SameEquality;
    m := SortedMap.SortedMapNew(order);
    for i := 0 to |run|
      invariant m.Valid() && m.order == order && Alike(ops, m.Contents(), Replay(ops, run[..i]))
    {
      ghost var before := m.Contents();
      match run[i] {
        case Put(k, v) =>
          m := SortedMap.SortedMapInsert(m, k, v);
          SortedPutAlike(ops, order, before, k, v);
        case Del(k) =>
          m := SortedMap.SortedMapRemove(m, k);
          SortedCutAlike(ops, order, before, k);
      }
      StepAlike(ops, run, i, before, m.Contents());
    }
    assert run[..|run|] == run;
  }

  lemma SortedPutAlike<K(!new), V>(ops: KeyOps<K>, order: SortedMap.Order<K>, pairs: seq<(K, V)>, k: K, v: V)
    requires ops.Lawful() && order.Lawful() && SameEquality(ops, order) && SortedMap.Ascending(order, pairs)
    ensures var after := SortedMap.SortedPut(order, pairs, k, v);
      && (forall q :: Get(ops, after, q) == if ops.eq(k, q) then Some(v) else Get(ops, pairs, q))
      && |after| == |pairs| + if Absent(ops, pairs, k) then 1 else 0
  {
    hide KeyOps.Lawful, SortedMap.Order.Lawful, Distinct;
    var after := SortedMap.SortedPut(order, pairs, k, v);
    forall q ensures Get(ops, after, q) == if ops.eq(k, q) then Some(v) else Get(ops, pairs, q) {
      SortedMap.SortedPutGet(order, pairs, k, v, q);
      SameSearch(ops, order, pairs, q);
      SameSearch(ops, order, after, q);
    }
    SortedMap.SortedPutGet(order, pairs, k, v, k);
  }

  lemma SortedCutAlike<K(!new), V>(ops: KeyOps<K>, order: SortedMap.Order<K>, pairs: seq<(K, V)>, k: K)
    requires ops.Lawful() && order.Lawful() && SameEquality(ops, order) && SortedMap.Ascending(order, pairs)
    ensures var after := SortedMap.SortedCut(order, pairs, k);
      && (forall q :: Get(ops, after, q) == if ops.eq(k, q) then None else Get(ops, pairs, q))
      && |after| == |pairs| - if Absent(ops, pairs, k) then 0 else 1
  {
    hide KeyOps.Lawful, SortedMap.Order.Lawful, Distinct;
    var after := SortedMap.SortedCut(order, pairs, k);
    forall q ensures Get(ops, after, q) == if ops.eq(k, q) then None else Get(ops, pairs, q) {
      SortedMap.SortedCutGet(order, pairs, k, q);
      SameSearch(ops, order, pairs, q);
      SameSearch(ops, order, after, q);
    }
    SortedMap.SortedCutGet(order, pairs, k, k);
  }

  /** The set, fed the keys of the run, holds exactly the reference's keys. */
  ghost predicate HoldsKeys<K(!new), V>(s: HamtSet.Set<K>, pairs: seq<(K, V)>) {
    && s.count == |pairs|
    && forall q :: s.Holds(q) <==> !Absent(s.ops, pairs, q)
  }

  method RunSet<K(!new), V>(ops: KeyOps<K>, run: seq<Op<K, V>>) returns (s: HamtSet.Set<K>)
    requires ops.Lawful()
    ensures s.Reachable() && s.ops == ops && HoldsKeys(s, Replay(ops, run))
  {
    hide KeyOps.Lawful, Get, Absent, Distinct;
    s := HamtSet.SetNew(ops);
    NothingHeld<K, V>(s);
    for i := 0 to |run|
      invariant s.Reachable() && s.ops == ops && HoldsKeys(s, Replay(ops, run[..i]))
    {
      ghost var before := s;
      match run[i] {
        case Put(k, _) =>
          var next, _ := HamtSet.SetInsert(s, k);
          s := next;
        case Del(k) =>
          var next, _ := HamtSet.SetRemove(s, k);
          s := next;
      }
      StepKeys(run, i, before, s);
    }
    assert run[..|run|] == run;
  }

  lemma NothingHeld<K(!new), V>(s: HamtSet.Set<K>)
    requires s.count == 0 && s.Elements() == []
    ensures HoldsKeys<K, V>(s, [])
  {
  }

  lemma StepKeys<K(!new), V>(run: seq<Op<K, V>>, i: nat, before: HamtSet.Set<K>, after: HamtSet.Set<K>)
    requires before.ops.Lawful() && after.ops == before.ops && i < |run|
    requires HoldsKeys(before, Replay(before.ops, run[..i]))
    requires forall q :: after.Holds(q) <==> if before.ops.eq(run[i].key, q) then run[i].Put? else before.Holds(q)
    requires after.count - before.count ==
      if before.Holds(run[i].key) then (if run[i].Put? then 0 else -1) else (if run[i].Put? then 1 else 0)
    ensures HoldsKeys(after, Replay(before.ops, run[..i + 1]))
  {
    hide KeyOps.Lawful, Absent, Distinct, HamtSet.Set.Holds;
    var ops := before.ops;
    var held, want := Replay(ops, run[..i]), Replay(ops, run[..i + 1]);
    ReplayDistinct(ops, run[..i]);
    forall q ensures after.Holds(q) <==> !Absent(ops, want, q) {
      ReplayStep(ops, run, i, q);
      FindAbsent(ops, held, q);
      FindAbsent(ops, want, q);
    }
    ReplayStep(ops, run, i, run[i].key);
  }

  /** What a program can observe of the four containers after one run of
      operations: every query and every length agrees. */
  method SameAnswers<K(!new), V>(ops: KeyOps<K>, order: SortedMap.Order<K>, run: seq<Op<K, V>>, q: K)
    returns (hamt: Option<V>, linked: Option<V>, sorted: Option<V>, member: bool,
             hamtLen: int, linkedLen: int, sortedLen: int, setLen: int)
    requires ops.Lawful() && order.Lawful() && SameEquality(ops, order)
    ensures hamt == linked == sorted == Get(ops, Replay(ops, run), q)
    ensures member <==> hamt.Some?
    ensures hamtLen == linkedLen == sortedLen == setLen == |Replay(ops, run)|
  {
    hide KeyOps.Lawful, SortedMap.Order.Lawful, SameEquality, Absent, Distinct;
    var h := RunHamt(ops, run);
    hamt := HamtMap.MapGet(h, q);
    hamtLen := HamtMap.MapLen(h);
    var l := RunLinked(ops, run);
    linked := LinkedMap.LinkedMapGet(l, q);
    linkedLen := LinkedMap.LinkedMapLen(l);
    var s := RunSorted(ops, order, run);
    sorted := SortedMap.SortedMapGet(s, q);
    sortedLen := SortedMap.SortedMapLen(s);
    SameSearch(ops, order, s.Contents(), q);
    var t := RunSet(ops, run);
    member := HamtSet.SetContains(t, q);
    setLen := HamtSet.SetLen(t);
    FindAbsent(ops, Replay(ops, run), q);
  }
}
