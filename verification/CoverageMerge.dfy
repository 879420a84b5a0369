/** Adding up the raw counter files of several runs. */
module CoverageMerge {
  import opened Octets
  import opened Options

  const MAX: int := 0x7FFF_FFFF_FFFF_FFFF
  const MIN: int := -0x8000_0000_0000_0000

  /** A file of the directory: whether its name ends in `.covraw`, and its
      bytes if it can be read. */
  datatype RawFile = RawFile(isCovraw: bool, bytes: Option<seq<Byte>>)

  // ----- counters in a file

  function Unsigned(bs: seq<Byte>): nat {
    if |bs| == 0 then 0 else bs[0] + 256 * Unsigned(bs[1..])
  }

  /** `i64::from_le_bytes`. */
  function FromLe(bs: seq<Byte>): int
    requires |bs| == 8
  {
    var u := Unsigned(bs);
    if u > MAX then u - 0x1_0000_0000_0000_0000 else u
  }

  /** The file is one the merge counts. */
  predicate Usable(f: RawFile, n: nat) {
    f.isCovraw && f.bytes.Some? && |f.bytes.value| == 8 * n
  }

  function CounterIn(f: RawFile, n: nat, i: nat): int
    requires Usable(f, n) && i < n
  {
    FromLe(f.bytes.value[8 * i..8 * i + 8])
  }

  // ----- merging

  function Clamp(x: int): int {
    if x > MAX then MAX else if x < MIN then MIN else x
  }

  /** `saturating_add` over the files in the order the directory lists them. */
  function Merged(dir: seq<RawFile>, n: nat, i: nat): int
    requires i < n
  {
    if |dir| == 0 then 0
    else
      var before, f := Merged(dir[..|dir| - 1], n, i), dir[|dir| - 1];
      if Usable(f, n) then Clamp(before + CounterIn(f, n, i)) else before
  }

  /** `merge_covraw`. */
  method MergeCovraw(dir: seq<RawFile>, n: nat) returns (r: Option<array<int>>)
    ensures r.Some? <==> exists f :: f in dir && Usable(f, n)
    ensures r.Some? ==>
      fresh(r.value) && r.value.Length == n && forall i :: 0 <= i < n ==> r.value[i] == Merged(dir, n, i)
  {
    hide FromLe, Clamp;
    var merged := new int[n](_ => 0);
    var foundAny := false;
    for k := 0 to |dir|
      invariant fresh(merged) && foundAny <==> exists f :: f in dir[..k] && Usable(f, n)
      invariant forall i :: 0 <= i < n ==> merged[i] == Merged(dir[..k], n, i)
    {
      assert dir[..k + 1] == dir[..k] + [dir[k]] && dir[..k + 1][..k] == dir[..k];
      if Usable(dir[k], n) {
        foundAny := true;
        for i := 0 to n
          invariant forall j :: i <= j < n ==> merged[j] == Merged(dir[..k], n, j)
          invariant forall j :: 0 <= j < i ==> merged[j] == Merged(dir[..k + 1], n, j)
        {
          merged[i] := Clamp(merged[i] + CounterIn(dir[k], n, i));
        }
      }
    }
    assert dir[..|dir|] == dir;
    r := if foundAny then Some(merged) else None;
  }

  // ----- what the merge means

  /** What a file adds to counter `i`. */
  function Amount(f: RawFile, n: nat, i: nat): int
    requires i < n
  {
    if Usable(f, n) then CounterIn(f, n, i) else 0
  }

  /** All of an amount, or its positive or negative part. */
  datatype Part = Whole | Gain | Loss

  function Share(part: Part, f: RawFile, n: nat, i: nat): int
    requires i < n
  {
    var x := Amount(f, n, i);
    match part
    case Whole => x
    case Gain => if x > 0 then x else 0
    case Loss => if x < 0 then x else 0
  }

  function Sum(part: Part, dir: seq<RawFile>, n: nat, i: nat): int
    requires i < n
  {
    if |dir| == 0 then 0 else Sum(part, dir[..|dir| - 1], n, i) + Share(part, dir[|dir| - 1], n, i)
  }

  lemma SumAppend(part: Part, dir: seq<RawFile>, f: RawFile, n: nat, i: nat)
    requires i < n
    ensures Sum(part, dir + [f], n, i) == Sum(part, dir, n, i) + Share(part, f, n, i)
  {
    hide Share;
    assert (dir + [f])[..|dir|] == dir;
  }

  /** The whole is the gains and the losses. */
  lemma {:induction false} SumParts(dir: seq<RawFile>, n: nat, i: nat)
    requires i < n
    ensures Sum(Whole, dir, n, i) == Sum(Gain, dir, n, i) + Sum(Loss, dir, n, i)
    ensures Sum(Loss, dir, n, i) <= 0 <= Sum(Gain, dir, n, i)
    decreases |dir|
  {
    hide Amount;
    if |dir| > 0 {
      SumParts(dir[..|dir| - 1], n, i);
    }
  }

  predicate CountsUp(dir: seq<RawFile>, n: nat, i: nat)
    requires i < n
  {
    forall k :: 0 <= k < |dir| && Usable(dir[k], n) ==> CounterIn(dir[k], n, i) >= 0
  }

  /** As long as no file holds a negative count, the merge is the sum, capped. */
  lemma {:induction false} MergedIsCappedSum(dir: seq<RawFile>, n: nat, i: nat)
    requires i < n && CountsUp(dir, n, i)
    ensures var sum := Sum(Whole, dir, n, i); 0 <= sum && Merged(dir, n, i) == if sum > MAX then MAX else sum
    ensures Sum(Loss, dir, n, i) == 0
    decreases |dir|
  {
    hide CounterIn;
    if |dir| > 0 {
      MergedIsCappedSum(dir[..|dir| - 1], n, i);
    }
  }

  // ----- the order of the directory

  lemma {:induction false} SumWithout(part: Part, a: seq<RawFile>, f: RawFile, b: seq<RawFile>, n: nat, i: nat)
    requires i < n
    ensures Sum(part, a + [f] + b, n, i) == Sum(part, a + b, n, i) + Share(part, f, n, i)
    decreases |b|
  {
    hide Share, Sum;
    if |b| == 0 {
      SumAppend(part, a, f, n, i);
      assert a + [f] + b == a + [f] && a + b == a;
    } else {
      var m := |b| - 1;
      SumWithout(part, a, f, b[..m], n, i);
      SumAppend(part, a + [f] + b[..m], b[m], n, i);
      SumAppend(part, a + b[..m], b[m], n, i);
      assert b == b[..m] + [b[m]];
      assert a + [f] + b == a + [f] + b[..m] + [b[m]] && a + b == a + b[..m] + [b[m]];
    }
  }

  lemma SplitAt(b: seq<RawFile>, f: RawFile) returns (front: seq<RawFile>, back: seq<RawFile>)
    requires f in multiset(b)
    ensures b == front + [f] + back
  {
    var k: nat :| k < |b| && b[k] == f;
    front, back := b[..k], b[k + 1..];
  }

  lemma WithoutOne(a: seq<RawFile>, f: RawFile, front: seq<RawFile>, back: seq<RawFile>)
    requires multiset(a + [f]) == multiset(front + [f] + back)
    ensures multiset(a) == multiset(front + back)
  {
    assert multiset(front + [f] + back) == multiset(front + back) + multiset{f};
    assert multiset(a + [f]) - multiset{f} == multiset(a);
  }

  /** No sum depends on the order. */
  lemma {:induction false} SumAnyOrder(part: Part, a: seq<RawFile>, b: seq<RawFile>, n: nat, i: nat)
    requires i < n && multiset(a) == multiset(b)
    ensures Sum(part, a, n, i) == Sum(part, b, n, i)
    decreases |a|
  {
    hide Share, Sum;
    assert |a| == |multiset(a)| && |b| == |multiset(b)|;
    if |a| > 0 {
      var m := |a| - 1;
      var f := a[m];
      assert a == a[..m] + [f] && f in multiset(b);
      var front, back := SplitAt(b, f);
      WithoutOne(a[..m], f, front, back);
      SumWithout(part, front, f, back, n, i);
      SumAppend(part, a[..m], f, n, i);
      SumAnyOrder(part, a[..m], front + back, n, i);
    } else {
      assert a == b;
    }
  }

  /** One sign only, or gains and losses that each fit an `i64`. */
  predicate OrderSafe(dir: seq<RawFile>, n: nat, i: nat)
    requires i < n
  {
    var gains, losses := Sum(Gain, dir, n, i), Sum(Loss, dir, n, i);
    losses == 0 || gains == 0 || (gains <= MAX && losses >= MIN)
  }

  /** The step of the merge, an unusable file adding nothing. */
  lemma MergedStep(dir: seq<RawFile>, n: nat, i: nat)
    requires i < n && |dir| > 0
    ensures MIN <= Merged(dir, n, i) <= MAX
    ensures Merged(dir, n, i) == Clamp(Merged(dir[..|dir| - 1], n, i) + Amount(dir[|dir| - 1], n, i))
  {
    hide CounterIn;
    MergedBounded(dir[..|dir| - 1], n, i);
  }

  lemma {:induction false} MergedBounded(dir: seq<RawFile>, n: nat, i: nat)
    requires i < n
    ensures MIN <= Merged(dir, n, i) <= MAX
    decreases |dir|
  {
    hide CounterIn;
    if |dir| > 0 {
      MergedBounded(dir[..|dir| - 1], n, i);
    }
  }

  /** Then the merge is the sum, clamped once at the end. */
  lemma {:induction false} MergedIsClampedSum(dir: seq<RawFile>, n: nat, i: nat)
    requires i < n && OrderSafe(dir, n, i)
    ensures Merged(dir, n, i) == Clamp(Sum(Gain, dir, n, i) + Sum(Loss, dir, n, i))
    decreases |dir|
  {
    hide Amount, Merged;
    if |dir| > 0 {
      SumParts(dir[..|dir| - 1], n, i);
      MergedIsClampedSum(dir[..|dir| - 1], n, i);
      MergedStep(dir, n, i);
    } else {
      NothingMerged(n, i);
    }
  }

  lemma NothingMerged(n: nat, i: nat)
    requires i < n
    ensures Merged([], n, i) == 0
  {
  }

  /** Files that do not count down, in order, and files that do. */
  function Sorted(dir: seq<RawFile>, n: nat, i: nat, down: bool): seq<RawFile>
    requires i < n
  {
    if |dir| == 0 then []
    else
      var f := dir[|dir| - 1];
      Sorted(dir[..|dir| - 1], n, i, down) + if (Amount(f, n, i) < 0) == down then [f] else []
  }

  lemma SortedStep(dir: seq<RawFile>, f: RawFile, n: nat, i: nat)
    requires i < n
    ensures var down := Amount(f, n, i) < 0;
      && Sorted(dir + [f], n, i, down) == Sorted(dir, n, i, down) + [f]
      && Sorted(dir + [f], n, i, !down) == Sorted(dir, n, i, !down)
  {
    hide Amount;
    assert (dir + [f])[..|dir|] == dir;
  }

  lemma OneMore(a: seq<RawFile>, f: RawFile)
    ensures multiset(a + [f]) == multiset(a) + multiset{f}
  {
  }

  lemma {:induction false} SortedOrder(dir: seq<RawFile>, n: nat, i: nat)
    requires i < n
    ensures multiset(Sorted(dir, n, i, false)) + multiset(Sorted(dir, n, i, true)) == multiset(dir)
    decreases |dir|
  {
    hide Amount, Sorted;
    if |dir| > 0 {
      var front, f := dir[..|dir| - 1], dir[|dir| - 1];
      SortedOrder(front, n, i);
      SortedStep(front, f, n, i);
      OneMore(front, f);
      OneMore(Sorted(front, n, i, Amount(f, n, i) < 0), f);
      assert dir == front + [f];
    } else {
      SortedNone(n, i);
      assert dir == [];
    }
  }

  lemma SortedNone(n: nat, i: nat)
    requires i < n
    ensures Sorted([], n, i, false) == [] && Sorted([], n, i, true) == []
  {
  }

  predicate OneSign(dir: seq<RawFile>, n: nat, i: nat, down: bool)
    requires i < n
  {
    forall k :: 0 <= k < |dir| ==> (Amount(dir[k], n, i) < 0) == down
  }

  lemma {:induction false} SortedSums(dir: seq<RawFile>, n: nat, i: nat)
    requires i < n
    ensures OneSign(Sorted(dir, n, i, false), n, i, false) && OneSign(Sorted(dir, n, i, true), n, i, true)
    ensures Sum(Whole, Sorted(dir, n, i, false), n, i) == Sum(Gain, dir, n, i)
    ensures Sum(Whole, Sorted(dir, n, i, true), n, i) == Sum(Loss, dir, n, i)
    decreases |dir|
  {
    hide Amount, Sum;
    SumOfNone(n, i);
    if |dir| > 0 {
      var front, f := dir[..|dir| - 1], dir[|dir| - 1];
      SortedSums(front, n, i);
      SumAppend(Gain, front, f, n, i);
      SumAppend(Loss, front, f, n, i);
      SumAppend(Whole, Sorted(front, n, i, false), f, n, i);
      SumAppend(Whole, Sorted(front, n, i, true), f, n, i);
      assert dir == front + [f];
      assert Sorted(front, n, i, false) + [] == Sorted(front, n, i, false);
      assert Sorted(front, n, i, true) + [] == Sorted(front, n, i, true);
    }
  }

  lemma SumOfNone(n: nat, i: nat)
    requires i < n
    ensures Sum(Whole, [], n, i) == Sum(Gain, [], n, i) == Sum(Loss, [], n, i) == 0
  {
  }

  /** After any start, files of one sign add their sum, stopping at the bound. */
  lemma {:induction false} MergedAfter(a: seq<RawFile>, b: seq<RawFile>, n: nat, i: nat, down: bool)
    requires i < n && OneSign(b, n, i, down)
    ensures Merged(a + b, n, i) == Clamp(Merged(a, n, i) + Sum(Whole, b, n, i))
    ensures if down then Sum(Whole, b, n, i) <= 0 else Sum(Whole, b, n, i) >= 0
    decreases |b|
  {
    hide Amount, Merged, Sum;
    MergedBounded(a, n, i);
    if |b| == 0 {
      assert a + b == a && b == [];
      SumOfNone(n, i);
    } else {
      var m := |b| - 1;
      MergedAfter(a, b[..m], n, i, down);
      SumAppend(Whole, b[..m], b[m], n, i);
      assert b == b[..m] + [b[m]];
      assert (a + b)[..|a + b| - 1] == a + b[..m] && (a + b)[|a + b| - 1] == b[m];
      MergedStep(a + b, n, i);
    }
  }

  /** The merge with one sign first. */
  lemma MergedSorted(dir: seq<RawFile>, n: nat, i: nat, down: bool)
    requires i < n
    ensures var first, last := Sorted(dir, n, i, down), Sorted(dir, n, i, !down);
      Merged(first + last, n, i) == Clamp(Clamp(Sum(Whole, first, n, i)) + Sum(Whole, last, n, i))
  {
    hide Sorted, Sum, Merged, Clamp;
    var first, last := Sorted(dir, n, i, down), Sorted(dir, n, i, !down);
    SortedSums(dir, n, i);
    NothingMerged(n, i);
    MergedAfter([], first, n, i, down);
    MergedAfter(first, last, n, i, !down);
    assert [] + first == first;
  }

  /** The order of the directory does not matter to a counter exactly when its
      gains or its losses are none, or both fit an `i64`. */
  lemma OrderMattersNot(dir: seq<RawFile>, n: nat, i: nat)
    requires i < n
    ensures OrderSafe(dir, n, i) <==>
      forall b :: multiset(b) == multiset(dir) ==> Merged(b, n, i) == Merged(dir, n, i)
  {
    hide Sum, Merged, Sorted;
    if OrderSafe(dir, n, i) {
      forall b | multiset(b) == multiset(dir) ensures Merged(b, n, i) == Merged(dir, n, i) {
        MergedAnyOrder(dir, b, n, i);
      }
    } else {
      var up, down := Sorted(dir, n, i, false), Sorted(dir, n, i, true);
      SortedOrder(dir, n, i);
      assert multiset(up + down) == multiset(dir) && multiset(down + up) == multiset(dir);
      SortedSums(dir, n, i);
      SumParts(dir, n, i);
      MergedSorted(dir, n, i, false);
      MergedSorted(dir, n, i, true);
      assert Merged(up + down, n, i) != Merged(down + up, n, i);
    }
  }

  /** Two orders of a directory that meets the condition merge alike. */
  lemma MergedAnyOrder(a: seq<RawFile>, b: seq<RawFile>, n: nat, i: nat)
    requires i < n && multiset(a) == multiset(b) && OrderSafe(a, n, i)
    ensures Merged(a, n, i) == Merged(b, n, i)
  {
    hide Sum, Merged;
    SumAnyOrder(Gain, a, b, n, i);
    SumAnyOrder(Loss, a, b, n, i);
    MergedIsClampedSum(a, n, i);
    MergedIsClampedSum(b, n, i);
  }

  /** Without negative counts the condition is met. */
  lemma CountsUpSafe(dir: seq<RawFile>, n: nat, i: nat)
    requires i < n && CountsUp(dir, n, i)
    ensures OrderSafe(dir, n, i)
  {
    hide Sum;
    MergedIsCappedSum(dir, n, i);
  }

  /** A merged counter is positive exactly when some run hit it. */
  lemma {:induction false} MergedHit(dir: seq<RawFile>, n: nat, i: nat)
    requires i < n && CountsUp(dir, n, i)
    ensures Merged(dir, n, i) > 0 <==> exists f :: f in dir && Usable(f, n) && CounterIn(f, n, i) > 0
    decreases |dir|
  {
    hide CounterIn;
    if |dir| > 0 {
      var m := |dir| - 1;
      MergedHit(dir[..m], n, i);
      MergedIsCappedSum(dir[..m], n, i);
      assert dir == dir[..m] + [dir[m]];
    }
  }

  // ----- negative counts

  const FULL: seq<Byte> := [255, 255, 255, 255, 255, 255, 255, 127]
  const ONE: seq<Byte> := [1, 0, 0, 0, 0, 0, 0, 0]
  const MINUS_ONE: seq<Byte> := [255, 255, 255, 255, 255, 255, 255, 255]

  function Holding(bs: seq<Byte>): RawFile {
    RawFile(true, Some(bs))
  }

  lemma EightBytes(bs: seq<Byte>)
    requires |bs| == 8
    ensures Unsigned(bs) == bs[0] as int + 0x100 * bs[1] as int + 0x1_0000 * bs[2] as int + 0x100_0000 * bs[3] as int
      + 0x1_0000_0000 * bs[4] as int + 0x100_0000_0000 * bs[5] as int
      + 0x1_0000_0000_0000 * bs[6] as int + 0x100_0000_0000_0000 * bs[7] as int
  {
    forall k | 0 <= k < 8 ensures Unsigned(bs[k..]) == bs[k] + 256 * Unsigned(bs[k + 1..]) {
      assert bs[k..][1..] == bs[k + 1..];
    }
    assert bs[0..] == bs && Unsigned(bs[8..]) == 0;
  }

  /** A counter is stored in eight bytes, the least first, in two's complement. */
  predicate Stores(bs: seq<Byte>, v: int) {
    && |bs| == 8
    && v == bs[0] as int + 0x100 * bs[1] as int + 0x1_0000 * bs[2] as int + 0x100_0000 * bs[3] as int
            + 0x1_0000_0000 * bs[4] as int + 0x100_0000_0000 * bs[5] as int
            + 0x1_0000_0000_0000 * bs[6] as int + 0x100_0000_0000_0000 * bs[7] as int
            - if bs[7] < 128 then 0 else 0x1_0000_0000_0000_0000
  }

  lemma StoredValue(bs: seq<Byte>)
    requires |bs| == 8
    ensures Stores(bs, FromLe(bs)) && MIN <= FromLe(bs) <= MAX
  {
    hide Unsigned;
    EightBytes(bs);
  }

  function Records(rs: seq<seq<Byte>>): seq<Byte> {
    if |rs| == 0 then [] else Records(rs[..|rs| - 1]) + rs[|rs| - 1]
  }

  lemma {:induction false} RecordAt(rs: seq<seq<Byte>>, i: nat)
    requires i < |rs| && forall k :: 0 <= k < |rs| ==> |rs[k]| == 8
    ensures |Records(rs)| == 8 * |rs| && Records(rs)[8 * i..8 * i + 8] == rs[i]
    decreases |rs|
  {
    var n := |rs| - 1;
    RecordsLength(rs[..n]);
    if i < n {
      RecordAt(rs[..n], i);
    }
  }

  lemma {:induction false} RecordsLength(rs: seq<seq<Byte>>)
    requires forall k :: 0 <= k < |rs| ==> |rs[k]| == 8
    ensures |Records(rs)| == 8 * |rs|
    decreases |rs|
  {
    if |rs| > 0 {
      RecordsLength(rs[..|rs| - 1]);
    }
  }

  /** A file of `n` records holds their values in order, and merged alone it
      gives exactly those. */
  lemma RecordsMerge(rs: seq<seq<Byte>>, i: nat, v: int)
    requires i < |rs| && (forall k :: 0 <= k < |rs| ==> |rs[k]| == 8) && Stores(rs[i], v)
    ensures Usable(Holding(Records(rs)), |rs|) && CounterIn(Holding(Records(rs)), |rs|, i) == v
    ensures Merged([Holding(Records(rs))], |rs|, i) == v
  {
    hide FromLe, Merged, Records;
    RecordAt(rs, i);
    StoredValue(rs[i]);
    NothingMerged(|rs|, i);
    MergedAppend([], Holding(Records(rs)), |rs|, i);
    assert [] + [Holding(Records(rs))] == [Holding(Records(rs))];
  }

  /** A file of another name or another length, or one that cannot be read, adds
      nothing. */
  lemma OthersIgnored(dir: seq<RawFile>, f: RawFile, n: nat, i: nat)
    requires i < n && (!f.isCovraw || f.bytes.None? || |f.bytes.value| != 8 * n)
    ensures Merged(dir + [f], n, i) == Merged(dir, n, i) && !Usable(f, n)
  {
    assert (dir + [f])[..|dir|] == dir;
  }

  /** The records in the bytes of a usable file are what it adds. */
  lemma UsableRecord(f: RawFile, n: nat, i: nat)
    requires Usable(f, n) && i < n
    ensures Stores(f.bytes.value[8 * i..8 * i + 8], CounterIn(f, n, i))
  {
    hide FromLe;
    StoredValue(f.bytes.value[8 * i..8 * i + 8]);
  }

  lemma Held(bs: seq<Byte>)
    requires |bs| == 8
    ensures Usable(Holding(bs), 1) && CounterIn(Holding(bs), 1, 0) == FromLe(bs)
  {
    assert bs[0..8] == bs;
  }

  lemma MergedAppend(dir: seq<RawFile>, f: RawFile, n: nat, i: nat)
    requires i < n && Usable(f, n)
    ensures Merged(dir + [f], n, i) == Clamp(Merged(dir, n, i) + CounterIn(f, n, i))
  {
    hide Clamp, CounterIn;
    assert (dir + [f])[..|dir|] == dir;
  }

  /** Three files whose order matters. */
  lemma NegativeOrderMatters()
    ensures Merged([Holding(FULL), Holding(ONE), Holding(MINUS_ONE)], 1, 0)
         != Merged([Holding(FULL), Holding(MINUS_ONE), Holding(ONE)], 1, 0)
  {
    hide Usable, CounterIn, Merged, Unsigned;
    EightBytes(FULL);
    EightBytes(ONE);
    EightBytes(MINUS_ONE);
    Held(FULL);
    Held(ONE);
    Held(MINUS_ONE);
    var f, p, m := Holding(FULL), Holding(ONE), Holding(MINUS_ONE);
    NothingMerged(1, 0);
    MergedAppend([], f, 1, 0);
    MergedAppend([f], p, 1, 0);
    MergedAppend([f], m, 1, 0);
    MergedAppend([f, p], m, 1, 0);
    MergedAppend([f, m], p, 1, 0);
    assert [] + [f] == [f] && [f] + [p] == [f, p] && [f] + [m] == [f, m];
    assert [f, p] + [m] == [f, p, m] && [f, m] + [p] == [f, m, p];
  }
}
