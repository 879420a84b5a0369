/** 64-bit hashes cut into 5-bit slices, one slice per trie level. */
module Hashes {
  import opened Bits

  /** Levels a 64-bit hash provides: slice 12 is the last one whose shift
      distance, 60, stays below 64. */
  const LEVELS: nat := 13

  /** The five bits of a hash that level `depth` looks at. They are written as
      one shift by five per level; `HashShifts.SliceIsShift` shows that this is
      `(hash >> (depth * 5)) & 31`. The precondition is that shift's own. */
  function Slice(hash: bv64, depth: nat): Slot
    requires depth * 5 < 64
    decreases depth
  {
    if depth == 0 then (hash & 31) as bv32 else Slice(hash >> 5, depth - 1)
  }

  /** The slots a hash leads through, from the root down to `depth`. */
  function Path(hash: bv64, depth: nat): (path: seq<Slot>)
    requires depth <= LEVELS
    ensures |path| == depth
    decreases depth
  {
    if depth == 0 then [] else Path(hash, depth - 1) + [Slice(hash, depth - 1)]
  }

  /** Hashes that share the path of length `depth + 1` share the one of
      length `depth` and the slice at `depth`. */
  lemma PathStep(a: bv64, b: bv64, depth: nat)
    requires depth < LEVELS
    ensures Path(a, depth + 1) == Path(b, depth + 1)
       <==> Path(a, depth) == Path(b, depth) && Slice(a, depth) == Slice(b, depth)
  {
    hide Slice;
    var p, q := Path(a, depth + 1), Path(b, depth + 1);
    assert p[..depth] == Path(a, depth) && q[..depth] == Path(b, depth);
    assert p[depth] == Slice(a, depth) && q[depth] == Slice(b, depth);
  }

  function Drop(hash: bv64, n: nat): bv64
    decreases n
  {
    if n == 0 then hash else Drop(hash >> 5, n - 1)
  }

  lemma SliceStep(hash: bv64, e: nat)
    requires e < 12
    ensures Slice(hash, e + 1) == Slice(hash >> 5, e)
  {
  }

  lemma DropStep(hash: bv64, n: nat)
    requires n > 0
    ensures Drop(hash, n) == Drop(hash >> 5, n - 1)
  {
  }

  lemma LowBits(a: bv64, b: bv64)
    requires a >> 5 == b >> 5 && Slice(a, 0) == Slice(b, 0)
    ensures a == b
  {
  }

  predicate Within(a: bv64, top: bv64) {
    a <= top
  }

  lemma ShiftMonotone(a: bv64, top: bv64)
    requires Within(a, top)
    ensures Within(a >> 5, top >> 5)
  {
  }

  lemma NothingLeft(a: bv64, top: bv64)
    requires Within(a, top) && Drop(top, 0) == 0
    ensures a == 0
  {
  }

  predicate SameSlices(a: bv64, b: bv64, n: nat)
    requires n <= LEVELS
    decreases n
  {
    n == 0 || (Slice(a, 0) == Slice(b, 0) && SameSlices(a >> 5, b >> 5, n - 1))
  }

  lemma {:induction false} SlicesDecide(a: bv64, b: bv64, n: nat, top: bv64)
    requires n <= LEVELS && SameSlices(a, b, n)
    requires Within(a, top) && Within(b, top) && Drop(top, n) == 0
    ensures a == b
    decreases n
  {
    hide Slice, Drop, Within;
    if n == 0 {
      NothingLeft(a, top);
      NothingLeft(b, top);
    } else {
      ShiftMonotone(a, top);
      ShiftMonotone(b, top);
      DropStep(top, n);
      SlicesDecide(a >> 5, b >> 5, n - 1, top >> 5);
      LowBits(a, b);
    }
  }

  lemma {:induction false} PathShift(a: bv64, n: nat)
    requires 0 < n <= LEVELS
    ensures Path(a, n) == [Slice(a, 0)] + Path(a >> 5, n - 1)
    decreases n
  {
    hide Slice;
    if n > 1 {
      PathShift(a, n - 1);
      SliceStep(a, n - 2);
    }
  }

  lemma {:induction false} PathGivesSlices(a: bv64, b: bv64, n: nat)
    requires n <= LEVELS && Path(a, n) == Path(b, n)
    ensures SameSlices(a, b, n)
    decreases n
  {
    hide Slice, Path;
    if n > 0 {
      PathShift(a, n);
      PathShift(b, n);
      var p, q := Path(a, n), Path(b, n);
      assert p[0] == q[0];
      assert p[1..] == Path(a >> 5, n - 1) && q[1..] == Path(b >> 5, n - 1);
      PathGivesSlices(a >> 5, b >> 5, n - 1);
    }
  }

  /** Thirteen slices pin a hash down: two hashes with the same path of
      length 13 are the same hash. This is what ends every split. */
  lemma PathDecides(a: bv64, b: bv64)
    requires Path(a, LEVELS) == Path(b, LEVELS)
    ensures a == b
  {
    hide Slice, Path;
    PathGivesSlices(a, b, LEVELS);
    AllDropped();
    SlicesDecide(a, b, LEVELS, 0xFFFF_FFFF_FFFF_FFFF);
  }

  lemma AllDropped()
    ensures Drop(0xFFFF_FFFF_FFFF_FFFF, LEVELS) == 0
  {
    assert Drop(0xFFFF_FFFF_FFFF_FFFF, 13) == 0;
  }
}
