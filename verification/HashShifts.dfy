/** The slices of a hash by the shifts a machine makes, one depth at a time. */
module HashShifts {
  import opened Bits
  import opened Hashes

  lemma Slice0(hash: bv64)
    ensures Slice(hash, 0) == ((hash >> 0) & 31) as Slot
  {
  }

  lemma Slice1(hash: bv64)
    ensures Slice(hash, 1) == ((hash >> 5) & 31) as Slot
  {
    hide Slice;
    SliceStep(hash, 0);
    Slice0(hash >> 5);
    assert (hash >> 5) >> 0 == hash >> 5;
  }

  lemma Slice2(hash: bv64)
    ensures Slice(hash, 2) == ((hash >> 10) & 31) as Slot
  {
    hide Slice;
    SliceStep(hash, 1);
    Slice1(hash >> 5);
    assert (hash >> 5) >> 5 == hash >> 10;
  }

  lemma Slice3(hash: bv64)
    ensures Slice(hash, 3) == ((hash >> 15) & 31) as Slot
  {
    hide Slice;
    SliceStep(hash, 2);
    Slice2(hash >> 5);
    assert (hash >> 5) >> 10 == hash >> 15;
  }

  lemma Slice4(hash: bv64)
    ensures Slice(hash, 4) == ((hash >> 20) & 31) as Slot
  {
    hide Slice;
    SliceStep(hash, 3);
    Slice3(hash >> 5);
    assert (hash >> 5) >> 15 == hash >> 20;
  }

  lemma Slice5(hash: bv64)
    ensures Slice(hash, 5) == ((hash >> 25) & 31) as Slot
  {
    hide Slice;
    SliceStep(hash, 4);
    Slice4(hash >> 5);
    assert (hash >> 5) >> 20 == hash >> 25;
  }

  lemma Slice6(hash: bv64)
    ensures Slice(hash, 6) == ((hash >> 30) & 31) as Slot
  {
    hide Slice;
    SliceStep(hash, 5);
    Slice5(hash >> 5);
    assert (hash >> 5) >> 25 == hash >> 30;
  }

  lemma Slice7(hash: bv64)
    ensures Slice(hash, 7) == ((hash >> 35) & 31) as Slot
  {
    hide Slice;
    SliceStep(hash, 6);
    Slice6(hash >> 5);
    assert (hash >> 5) >> 30 == hash >> 35;
  }

  lemma Slice8(hash: bv64)
    ensures Slice(hash, 8) == ((hash >> 40) & 31) as Slot
  {
    hide Slice;
    SliceStep(hash, 7);
    Slice7(hash >> 5);
    assert (hash >> 5) >> 35 == hash >> 40;
  }

  lemma Slice9(hash: bv64)
    ensures Slice(hash, 9) == ((hash >> 45) & 31) as Slot
  {
    hide Slice;
    SliceStep(hash, 8);
    Slice8(hash >> 5);
    assert (hash >> 5) >> 40 == hash >> 45;
  }

  lemma Slice10(hash: bv64)
    ensures Slice(hash, 10) == ((hash >> 50) & 31) as Slot
  {
    hide Slice;
    SliceStep(hash, 9);
    Slice9(hash >> 5);
    assert (hash >> 5) >> 45 == hash >> 50;
  }

  lemma Slice11(hash: bv64)
    ensures Slice(hash, 11) == ((hash >> 55) & 31) as Slot
  {
    hide Slice;
    SliceStep(hash, 10);
    Slice10(hash >> 5);
    assert (hash >> 5) >> 50 == hash >> 55;
  }

  lemma Slice12(hash: bv64)
    ensures Slice(hash, 12) == ((hash >> 60) & 31) as Slot
  {
    hide Slice;
    SliceStep(hash, 11);
    Slice11(hash >> 5);
    assert (hash >> 5) >> 55 == hash >> 60;
  }

  /** `(hash >> (depth * BITS)) & MASK` at each of the thirteen depths. */
  lemma SliceIsShift(hash: bv64)
    ensures Slice(hash, 0) == ((hash >> 0) & 31) as Slot
    ensures Slice(hash, 1) == ((hash >> 5) & 31) as Slot
    ensures Slice(hash, 2) == ((hash >> 10) & 31) as Slot
    ensures Slice(hash, 3) == ((hash >> 15) & 31) as Slot
    ensures Slice(hash, 4) == ((hash >> 20) & 31) as Slot
    ensures Slice(hash, 5) == ((hash >> 25) & 31) as Slot
    ensures Slice(hash, 6) == ((hash >> 30) & 31) as Slot
    ensures Slice(hash, 7) == ((hash >> 35) & 31) as Slot
    ensures Slice(hash, 8) == ((hash >> 40) & 31) as Slot
    ensures Slice(hash, 9) == ((hash >> 45) & 31) as Slot
    ensures Slice(hash, 10) == ((hash >> 50) & 31) as Slot
    ensures Slice(hash, 11) == ((hash >> 55) & 31) as Slot
    ensures Slice(hash, 12) == ((hash >> 60) & 31) as Slot
  {
    hide Slice;
    Slice0(hash);
    Slice1(hash);
    Slice2(hash);
    Slice3(hash);
    Slice4(hash);
    Slice5(hash);
    Slice6(hash);
    Slice7(hash);
    Slice8(hash);
    Slice9(hash);
    Slice10(hash);
    Slice11(hash);
    Slice12(hash);
  }
}
