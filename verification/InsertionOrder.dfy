/** What stands in a linked map after a run of insertions and removals, and in
    which order, told from the run alone. */
module InsertionOrder {
  import opened Keys
  import opened Containers

  /** A removal of step `j`'s key comes between steps `j` and `k`. */
  ghost predicate RemovedBetween<K(!new), V>(ops: KeyOps<K>, run: seq<Op<K, V>>, j: nat, k: nat)
    requires j < |run| && k <= |run|
  {
    exists d :: j < d < k && run[d].Del? && ops.eq(run[d].key, run[j].key)
  }

  /** Step `k` puts a key that was not there: whatever step put it before, it
      was removed in between. */
  ghost predicate PutsNew<K(!new), V>(ops: KeyOps<K>, run: seq<Op<K, V>>, k: nat)
    requires k < |run|
  {
    run[k].Put? &&
    forall j :: 0 <= j < k && run[j].Put? && ops.eq(run[j].key, run[k].key) ==> RemovedBetween(ops, run, j, k)
  }

  /** And it is not removed later: this is when the key was last added. */
  ghost predicate LastAdded<K(!new), V>(ops: KeyOps<K>, run: seq<Op<K, V>>, k: nat) {
    k < |run| && PutsNew(ops, run, k) && !RemovedBetween(ops, run, k, |run|)
  }

  /** Step `p` is the last one to put an equal key. */
  ghost predicate LastPut<K(!new), V>(ops: KeyOps<K>, run: seq<Op<K, V>>, key: K, p: nat) {
    && p < |run| && run[p].Put? && ops.eq(run[p].key, key)
    && forall q :: p < q < |run| && run[q].Put? ==> !ops.eq(run[q].key, key)
  }

  /** Pair number `i` was added by step `at[i]` and holds the value put last. */
  ghost predicate PairFrom<K(!new), V>(ops: KeyOps<K>, run: seq<Op<K, V>>, pair: (K, V), k: nat) {
    && LastAdded(ops, run, k) && pair.0 == run[k].key
    && exists p: nat :: LastPut(ops, run, pair.0, p) && pair.1 == run[p].val
  }

  /** The pairs stand in the order in which their keys were last added, and
      each key that is still there has its pair. */
  ghost predicate InOrder<K(!new), V>(ops: KeyOps<K>, run: seq<Op<K, V>>, pairs: seq<(K, V)>, at: seq<nat>) {
    && |at| == |pairs|
    && (forall i, j :: 0 <= i < j < |at| ==> at[i] < at[j])
    && (forall i :: 0 <= i < |at| ==> PairFrom(ops, run, pairs[i], at[i]))
    && (forall k :: 0 <= k < |run| && LastAdded(ops, run, k) ==> k in at)
  }

  // ----- one more step

  lemma BetweenSame<K(!new), V>(ops: KeyOps<K>, run: seq<Op<K, V>>, op: Op<K, V>, j: nat, k: nat)
    requires j < |run| && k <= |run|
    ensures RemovedBetween(ops, run + [op], j, k) <==> RemovedBetween(ops, run, j, k)
    ensures RemovedBetween(ops, run + [op], j, |run| + 1) <==>
      RemovedBetween(ops, run, j, |run|) || (op.Del? && ops.eq(op.key, run[j].key))
  {
    var more := run + [op];
    if RemovedBetween(ops, run, j, k) {
      var d :| j < d < k && run[d].Del? && ops.eq(run[d].key, run[j].key);
      assert more[d] == run[d];
    }
    if RemovedBetween(ops, run, j, |run|) {
      var d :| j < d < |run| && run[d].Del? && ops.eq(run[d].key, run[j].key);
      assert more[d] == run[d];
    }
    if op.Del? && ops.eq(op.key, run[j].key) {
      assert more[|run|] == op;
    }
  }

  lemma PutsNewSame<K(!new), V>(ops: KeyOps<K>, run: seq<Op<K, V>>, op: Op<K, V>, k: nat)
    requires k < |run|
    ensures PutsNew(ops, run + [op], k) <==> PutsNew(ops, run, k)
  {
    hide RemovedBetween;
    var more := run + [op];
    forall j | 0 <= j < k ensures RemovedBetween(ops, more, j, k) <==> RemovedBetween(ops, run, j, k) {
      BetweenSame(ops, run, op, j, k);
    }
    forall j | 0 <= j <= k ensures more[j] == run[j] {
    }
  }

  /** A step adds its key for good as before, unless the new step removes it. */
  lemma AddedSame<K(!new), V>(ops: KeyOps<K>, run: seq<Op<K, V>>, op: Op<K, V>, k: nat)
    requires k < |run|
    ensures LastAdded(ops, run + [op], k) <==> LastAdded(ops, run, k) && !(op.Del? && ops.eq(op.key, run[k].key))
  {
    hide RemovedBetween, PutsNew;
    PutsNewSame(ops, run, op, k);
    BetweenSame(ops, run, op, k, |run|);
  }

  lemma LastPutSame<K(!new), V>(ops: KeyOps<K>, run: seq<Op<K, V>>, op: Op<K, V>, key: K, p: nat)
    requires LastPut(ops, run, key, p) && !(op.Put? && ops.eq(op.key, key))
    ensures LastPut(ops, run + [op], key, p)
  {
  }

  lemma LastPutNow<K(!new), V>(ops: KeyOps<K>, run: seq<Op<K, V>>, op: Op<K, V>, key: K)
    requires op.Put? && ops.eq(op.key, key)
    ensures LastPut(ops, run + [op], key, |run|)
  {
  }

  /** A pair that the new step does not concern. */
  lemma PairKept<K(!new), V>(ops: KeyOps<K>, run: seq<Op<K, V>>, op: Op<K, V>, pair: (K, V), k: nat)
    requires PairFrom(ops, run, pair, k) && !ops.eq(op.key, pair.0)
    ensures PairFrom(ops, run + [op], pair, k)
  {
    hide LastAdded;
    var p: nat :| LastPut(ops, run, pair.0, p) && pair.1 == run[p].val;
    AddedBound(ops, run, k);
    AddedSame(ops, run, op, k);
    LastPutSame(ops, run, op, pair.0, p);
  }

  /** A put that was not undone goes back to a step that added the key. */
  lemma {:induction false} SomeAdded<K(!new), V>(ops: KeyOps<K>, run: seq<Op<K, V>>, j: nat) returns (k: nat)
    requires ops.Lawful() && j < |run| && run[j].Put? && !RemovedBetween(ops, run, j, |run|)
    ensures LastAdded(ops, run, k) && ops.eq(run[k].key, run[j].key)
    decreases j
  {
    EqChain(ops, run[j].key, run[j].key, run[j].key);
    k := j;
    if !PutsNew(ops, run, j) {
      var i: nat :| i < j && run[i].Put? && ops.eq(run[i].key, run[j].key) && !RemovedBetween(ops, run, i, j);
      StillThere(ops, run, i, j);
      k := SomeAdded(ops, run, i);
      EqChain(ops, run[k].key, run[i].key, run[j].key);
    }
  }

  lemma StillThere<K(!new), V>(ops: KeyOps<K>, run: seq<Op<K, V>>, i: nat, j: nat)
    requires ops.Lawful() && i < j < |run| && run[j].Put? && ops.eq(run[i].key, run[j].key)
    requires !RemovedBetween(ops, run, i, j) && !RemovedBetween(ops, run, j, |run|)
    ensures !RemovedBetween(ops, run, i, |run|)
  {
    if RemovedBetween(ops, run, i, |run|) {
      var d :| i < d < |run| && run[d].Del? && ops.eq(run[d].key, run[i].key);
      EqChain(ops, run[d].key, run[i].key, run[j].key);
    }
  }

  /** The new step adds its key exactly when no pair has it. */
  lemma AddsNow<K(!new), V>(ops: KeyOps<K>, run: seq<Op<K, V>>, pairs: seq<(K, V)>, at: seq<nat>, op: Op<K, V>)
    requires ops.Lawful() && InOrder(ops, run, pairs, at) && op.Put?
    ensures LastAdded(ops, run + [op], |run|) <==> Absent(ops, pairs, op.key)
  {
    hide RemovedBetween, LastPut, KeyOps.Lawful;
    var n, more := |run|, run + [op];
    if Absent(ops, pairs, op.key) {
      forall j | 0 <= j < n && more[j].Put? && ops.eq(more[j].key, more[n].key)
        ensures RemovedBetween(ops, more, j, n)
      {
        BetweenSame(ops, run, op, j, n);
        if !RemovedBetween(ops, run, j, n) {
          var k := SomeAdded(ops, run, j);
          EqChain(ops, run[k].key, run[j].key, op.key);
          EqChain(ops, op.key, run[k].key, op.key);
          AbsentAlike(ops, pairs, op.key, run[k].key);
          AddedPresent(ops, run, pairs, at, k);
        }
      }
      NothingAfter(ops, more);
    } else {
      var e :| e in pairs && ops.eq(e.0, op.key);
      var i :| 0 <= i < |pairs| && pairs[i] == e;
      assert PairFrom(ops, run, pairs[i], at[i]);
      BetweenSame(ops, run, op, at[i], n);
      assert more[at[i]] == run[at[i]];
    }
  }

  lemma AddedPresent<K(!new), V>(ops: KeyOps<K>, run: seq<Op<K, V>>, pairs: seq<(K, V)>, at: seq<nat>, k: nat)
    requires ops.Lawful() && InOrder(ops, run, pairs, at) && LastAdded(ops, run, k)
    ensures k < |run| && !Absent(ops, pairs, run[k].key)
  {
    hide PutsNew, RemovedBetween, LastPut;
    var i :| 0 <= i < |at| && at[i] == k;
    assert PairFrom(ops, run, pairs[i], at[i]);
    assert pairs[i] in pairs;
  }

  lemma NothingAfter<K(!new), V>(ops: KeyOps<K>, run: seq<Op<K, V>>)
    requires |run| > 0
    ensures !RemovedBetween(ops, run, |run| - 1, |run|)
  {
  }

  lemma AppendInOrder<K(!new), V>(ops: KeyOps<K>, run: seq<Op<K, V>>, pairs: seq<(K, V)>, at: seq<nat>, op: Op<K, V>)
    requires ops.Lawful() && InOrder(ops, run, pairs, at) && op.Put? && Absent(ops, pairs, op.key)
    ensures InOrder(ops, run + [op], pairs + [(op.key, op.val)], at + [|run|])
  {
    hide LastAdded, PutsNew, RemovedBetween, KeyOps.Lawful;
    var n, more, after := |run|, run + [op], pairs + [(op.key, op.val)];
    AddsNow(ops, run, pairs, at, op);
    EqChain(ops, op.key, op.key, op.key);
    LastPutNow(ops, run, op, op.key);
    assert PairFrom(ops, more, (op.key, op.val), n);
    forall i | 0 <= i < |at| ensures at[i] < n && PairFrom(ops, more, pairs[i], at[i]) {
      assert PairFrom(ops, run, pairs[i], at[i]) && pairs[i] in pairs;
      AddedBound(ops, run, at[i]);
      EqChain(ops, pairs[i].0, op.key, op.key);
      PairKept(ops, run, op, pairs[i], at[i]);
    }
    forall k | 0 <= k < n + 1 && LastAdded(ops, more, k) ensures k in at + [n] {
      if k < n {
        AddedSame(ops, run, op, k);
      }
    }
  }

  lemma AddedBound<K(!new), V>(ops: KeyOps<K>, run: seq<Op<K, V>>, k: nat)
    requires LastAdded(ops, run, k)
    ensures k < |run|
  {
  }

  /** Keys at other places differ from the one at place `i`. */
  lemma OtherKeys<K(!new), V>(ops: KeyOps<K>, pairs: seq<(K, V)>, i: nat, j: nat, key: K)
    requires ops.Lawful() && Distinct(ops, pairs) && i < |pairs| && j < |pairs| && i != j
    requires ops.eq(pairs[i].0, key)
    ensures !ops.eq(key, pairs[j].0)
  {
    EqChain(ops, pairs[j].0, key, key);
    OthersDiffer(ops, pairs, i, j, key);
  }

  lemma OverwriteInOrder<K(!new), V>(
      ops: KeyOps<K>, run: seq<Op<K, V>>, pairs: seq<(K, V)>, at: seq<nat>, op: Op<K, V>, i: nat)
    requires ops.Lawful() && Distinct(ops, pairs) && InOrder(ops, run, pairs, at)
    requires op.Put? && i < |pairs| && ops.eq(pairs[i].0, op.key)
    ensures InOrder(ops, run + [op], pairs[i := (pairs[i].0, op.val)], at)
  {
    hide LastAdded, PutsNew, RemovedBetween, KeyOps.Lawful, Distinct;
    var n, more, after := |run|, run + [op], pairs[i := (pairs[i].0, op.val)];
    forall j | 0 <= j < |at| ensures PairFrom(ops, more, after[j], at[j]) {
      assert PairFrom(ops, run, pairs[j], at[j]);
      AddedBound(ops, run, at[j]);
      if j == i {
        EqChain(ops, op.key, pairs[i].0, op.key);
        AddedSame(ops, run, op, at[i]);
        LastPutNow(ops, run, op, pairs[i].0);
      } else {
        OtherKeys(ops, pairs, i, j, op.key);
        PairKept(ops, run, op, pairs[j], at[j]);
      }
    }
    AddsNow(ops, run, pairs, at, op);
    assert pairs[i] in pairs;
    forall k | 0 <= k < n + 1 && LastAdded(ops, more, k) ensures k in at {
      if k < n {
        AddedSame(ops, run, op, k);
      }
    }
  }

  lemma CutInOrder<K(!new), V>(
      ops: KeyOps<K>, run: seq<Op<K, V>>, pairs: seq<(K, V)>, at: seq<nat>, op: Op<K, V>, i: nat)
    requires ops.Lawful() && Distinct(ops, pairs) && InOrder(ops, run, pairs, at)
    requires op.Del? && i < |pairs| && ops.eq(pairs[i].0, op.key)
    ensures |at| == |pairs|
    ensures InOrder(ops, run + [op], pairs[..i] + pairs[i + 1..], at[..i] + at[i + 1..])
  {
    hide LastAdded, PairFrom, KeyOps.Lawful, Distinct;
    var after, left := pairs[..i] + pairs[i + 1..], at[..i] + at[i + 1..];
    forall j | 0 <= j < |left| ensures PairFrom(ops, run + [op], after[j], left[j]) {
      var k := if j < i then j else j + 1;
      assert after[j] == pairs[k] && left[j] == at[k];
      OtherKeys(ops, pairs, i, k, op.key);
      PairKept(ops, run, op, pairs[k], at[k]);
    }
    forall k | 0 <= k < |run| + 1 && LastAdded(ops, run + [op], k) ensures k in left {
      var x := CutAdded(ops, run, pairs, at, op, i, k);
      assert left[if x < i then x else x - 1] == k;
    }
  }

  /** What is still there after the cut is at another place. */
  lemma CutAdded<K(!new), V>(
      ops: KeyOps<K>, run: seq<Op<K, V>>, pairs: seq<(K, V)>, at: seq<nat>, op: Op<K, V>, i: nat, k: nat)
    returns (x: nat)
    requires ops.Lawful() && InOrder(ops, run, pairs, at) && op.Del? && i < |pairs| && ops.eq(pairs[i].0, op.key)
    requires LastAdded(ops, run + [op], k)
    ensures x < |at| && at[x] == k && x != i
  {
    hide LastAdded, LastPut, KeyOps.Lawful;
    NoPutAdded(ops, run + [op], k);
    assert k < |run|;
    AddedSame(ops, run, op, k);
    x :| x < |at| && at[x] == k;
    assert PairFrom(ops, run, pairs[x], at[x]);
    EqChain(ops, op.key, pairs[i].0, op.key);
  }

  lemma NoPutAdded<K(!new), V>(ops: KeyOps<K>, run: seq<Op<K, V>>, k: nat)
    requires LastAdded(ops, run, k)
    ensures k < |run| && run[k].Put?
  {
  }

  lemma AbsentInOrder<K(!new), V>(ops: KeyOps<K>, run: seq<Op<K, V>>, pairs: seq<(K, V)>, at: seq<nat>, op: Op<K, V>)
    requires ops.Lawful() && InOrder(ops, run, pairs, at) && op.Del? && Absent(ops, pairs, op.key)
    ensures InOrder(ops, run + [op], pairs, at)
  {
    hide LastAdded, PutsNew, RemovedBetween, KeyOps.Lawful, LastPut;
    var n, more := |run|, run + [op];
    forall j | 0 <= j < |at| ensures PairFrom(ops, more, pairs[j], at[j]) {
      assert PairFrom(ops, run, pairs[j], at[j]) && pairs[j] in pairs;
      EqChain(ops, pairs[j].0, op.key, op.key);
      PairKept(ops, run, op, pairs[j], at[j]);
    }
    forall k | 0 <= k < n + 1 && LastAdded(ops, more, k) ensures k in at {
      NoPutAdded(ops, more, k);
      AddedSame(ops, run, op, k);
    }
  }

  // ----- all runs

  /** The reference list of a run stands in insertion order. */
  lemma {:induction false} ReplayInOrder<K(!new), V>(ops: KeyOps<K>, run: seq<Op<K, V>>) returns (at: seq<nat>)
    requires ops.Lawful()
    ensures InOrder(ops, run, Replay(ops, run), at)
    decreases |run|
  {
    hide InOrder, KeyOps.Lawful, Absent, Distinct;
    if |run| == 0 {
      at := [];
      NothingInOrder(ops, run);
    } else {
      var n := |run| - 1;
      var before, op := Replay(ops, run[..n]), run[n];
      at := ReplayInOrder(ops, run[..n]);
      ReplayDistinct(ops, run[..n]);
      FindAbsent(ops, before, op.key);
      assert run == run[..n] + [op];
      var i := Find(ops, before, op.key);
      if i == |before| {
        if op.Put? {
          AppendInOrder(ops, run[..n], before, at, op);
          at := at + [n];
        } else {
          AbsentInOrder(ops, run[..n], before, at, op);
        }
      } else if op.Put? {
        OverwriteInOrder(ops, run[..n], before, at, op, i);
      } else {
        CutInOrder(ops, run[..n], before, at, op, i);
        at := at[..i] + at[i + 1..];
      }
    }
  }

  lemma NothingInOrder<K(!new), V>(ops: KeyOps<K>, run: seq<Op<K, V>>)
    requires |run| == 0
    ensures InOrder(ops, run, [], [])
  {
  }

  /** What a traversal of the linked map visits after a run: the keys still
      there in the order in which they were last added, each as it was added
      and with the value put last. */
  method VisitsInOrder<K(!new), V>(ops: KeyOps<K>, run: seq<Op<K, V>>) returns (visits: seq<(K, V)>)
    requires ops.Lawful()
    ensures exists at :: InOrder(ops, run, visits, at)
  {
    hide InOrder, KeyOps.Lawful;
    var m := RunLinked(ops, run);
    visits := LinkedMap.LinkedMapForEach(m);
    ghost var at := ReplayInOrder(ops, run);
  }
}
