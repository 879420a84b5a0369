/** The bit arithmetic behind the compressed child arrays: which slots of a
    32-bit bitmap are taken, and how a slot number becomes an array position.
    A position is the population count of the bits below the slot. */
module Bits {

  /** A slot number, `0..31`: the value of one 5-bit hash slice. */
  type Slot = i: bv32 | i < 32

  function Bit(i: Slot): bv32 {
    1 << i
  }

  predicate Has(bitmap: bv32, i: Slot) {
    bitmap & Bit(i) != 0
  }

  /** Number of set bits among the lowest `n`. */
  function CountBelow(bitmap: bv32, n: bv32): nat
    requires n <= 32
    decreases n
  {
    if n == 0 then 0 else CountBelow(bitmap, n - 1) + if Has(bitmap, n - 1) then 1 else 0
  }

  /** `u32::count_ones`. */
  function PopCount(bitmap: bv32): nat {
    CountBelow(bitmap, 32)
  }

  /** The array position of slot `i`: `(bitmap & (bit - 1)).count_ones()`. */
  function Rank(bitmap: bv32, i: Slot): nat {
    PopCount(bitmap & (Bit(i) - 1))
  }

  lemma MaskedHas(bitmap: bv32, i: Slot, j: Slot)
    ensures Has(bitmap & (Bit(i) - 1), j) <==> j < i && Has(bitmap, j)
  {
  }

  lemma BitsDiffer(i: Slot, j: Slot)
    ensures Bit(i) & Bit(j) == if i == j then Bit(i) else 0
  {
  }

  lemma BitNonZero(i: Slot)
    ensures Bit(i) != 0
  {
  }

  lemma SetHas(bitmap: bv32, i: Slot, j: Slot)
    ensures Has(bitmap | Bit(i), j) <==> j == i || Has(bitmap, j)
  {
    BitsDiffer(i, j);
    BitNonZero(i);
    assert (bitmap | Bit(i)) & Bit(j) == (bitmap & Bit(j)) | (Bit(i) & Bit(j));
  }

  lemma ClearHas(bitmap: bv32, i: Slot, j: Slot)
    ensures Has(bitmap & !Bit(i), j) <==> j != i && Has(bitmap, j)
  {
  }

  lemma StepBelow(i: bv32, n: bv32)
    requires 0 < n <= 32 && i <= 32
    ensures i < n <==> i < n - 1 || i == n - 1
    ensures n - 1 < n && n - 1 < 32
  {
  }

  /** Masking off everything from slot `i` up leaves the count below `i`. */
  lemma {:induction false} RankCountsBelow(bitmap: bv32, i: Slot, n: bv32)
    requires n <= 32
    ensures n <= i ==> CountBelow(bitmap & (Bit(i) - 1), n) == CountBelow(bitmap, n)
    ensures i <= n ==> CountBelow(bitmap & (Bit(i) - 1), n) == CountBelow(bitmap, i)
    decreases n
  {
    hide Has, Bit;
    if n > 0 {
      StepBelow(i, n);
      RankCountsBelow(bitmap, i, n - 1);
      MaskedHas(bitmap, i, n - 1);
    }
  }

  /** A position is the number of taken slots below. */
  lemma RankIs(bitmap: bv32, i: Slot)
    ensures Rank(bitmap, i) == CountBelow(bitmap, i)
  {
    hide Has, Bit, CountBelow;
    RankCountsBelow(bitmap, i, 32);
  }

  lemma {:induction false} CountMonotone(bitmap: bv32, m: bv32, n: bv32)
    requires m <= n <= 32
    ensures CountBelow(bitmap, m) <= CountBelow(bitmap, n)
    ensures m < n && Has(bitmap, m) ==> CountBelow(bitmap, m) < CountBelow(bitmap, n)
    decreases n
  {
    hide Has, Bit;
    if m < n {
      StepBelow(m, n);
      CountMonotone(bitmap, m, n - 1);
    }
  }

  /** Distinct taken slots get distinct positions, in slot order. */
  lemma RankOrder(bitmap: bv32, i: Slot, j: Slot)
    requires i < j && Has(bitmap, i)
    ensures Rank(bitmap, i) < Rank(bitmap, j)
  {
    hide Has, Bit, Rank, CountBelow;
    RankIs(bitmap, i);
    RankIs(bitmap, j);
    CountMonotone(bitmap, i, j);
  }

  /** The position of a taken slot lies inside the child array. */
  lemma RankInRange(bitmap: bv32, i: Slot)
    ensures Rank(bitmap, i) <= PopCount(bitmap)
    ensures Has(bitmap, i) ==> Rank(bitmap, i) < PopCount(bitmap)
  {
    hide Has, Bit, Rank, CountBelow;
    RankIs(bitmap, i);
    CountMonotone(bitmap, i, 32);
  }

  lemma {:induction false} SlotAt(bitmap: bv32, n: bv32, p: nat) returns (i: Slot)
    requires n <= 32 && p < CountBelow(bitmap, n)
    ensures i < n && Has(bitmap, i) && CountBelow(bitmap, i) == p
    decreases n
  {
    hide Has, Bit;
    StepBelow(0, n);
    if p < CountBelow(bitmap, n - 1) {
      i := SlotAt(bitmap, n - 1, p);
      StepBelow(i, n);
    } else {
      i := n - 1;
    }
  }

  /** Every position of the child array belongs to a taken slot. */
  lemma PositionHasSlot(bitmap: bv32, p: nat) returns (i: Slot)
    requires p < PopCount(bitmap)
    ensures Has(bitmap, i) && Rank(bitmap, i) == p
  {
    hide Has, Bit, Rank, CountBelow;
    i := SlotAt(bitmap, 32, p);
    RankIs(bitmap, i);
  }

  lemma {:induction false} CountAfterClear(bitmap: bv32, i: Slot, n: bv32)
    requires n <= 32 && Has(bitmap, i)
    ensures CountBelow(bitmap, n) == CountBelow(bitmap & !Bit(i), n) + if i < n then 1 else 0
    decreases n
  {
    hide Has, Bit;
    if n > 0 {
      StepBelow(i, n);
      CountAfterClear(bitmap, i, n - 1);
      ClearHas(bitmap, i, n - 1);
    }
  }

  lemma {:induction false} CountAfterSet(bitmap: bv32, i: Slot, n: bv32)
    requires n <= 32 && !Has(bitmap, i)
    ensures CountBelow(bitmap | Bit(i), n) == CountBelow(bitmap, n) + if i < n then 1 else 0
    decreases n
  {
    hide Has, Bit;
    if n > 0 {
      StepBelow(i, n);
      CountAfterSet(bitmap, i, n - 1);
      SetHas(bitmap, i, n - 1);
    }
  }

  /** Taking a free slot shifts exactly the positions above it by one. */
  lemma RankAfterSet(bitmap: bv32, i: Slot, j: Slot)
    requires !Has(bitmap, i)
    ensures PopCount(bitmap | Bit(i)) == PopCount(bitmap) + 1
    ensures Rank(bitmap | Bit(i), j) == Rank(bitmap, j) + if i < j then 1 else 0
  {
    hide Has, Bit, Rank, CountBelow;
    RankIs(bitmap, j);
    RankIs(bitmap | Bit(i), j);
    CountAfterSet(bitmap, i, j);
    CountAfterSet(bitmap, i, 32);
  }

  /** Freeing a taken slot shifts exactly the positions above it back by one. */
  lemma RankAfterClear(bitmap: bv32, i: Slot, j: Slot)
    requires Has(bitmap, i)
    ensures PopCount(bitmap) == PopCount(bitmap & !Bit(i)) + 1
    ensures Rank(bitmap, j) == Rank(bitmap & !Bit(i), j) + if i < j then 1 else 0
  {
    hide Has, Bit, Rank, CountBelow;
    RankIs(bitmap, j);
    RankIs(bitmap & !Bit(i), j);
    CountAfterClear(bitmap, i, j);
    CountAfterClear(bitmap, i, 32);
  }

  lemma RankMonotone(bitmap: bv32, i: Slot, j: Slot)
    requires i <= j
    ensures Rank(bitmap, i) <= Rank(bitmap, j)
  {
    hide Has, Bit, Rank, CountBelow;
    RankIs(bitmap, i);
    RankIs(bitmap, j);
    CountMonotone(bitmap, i, j);
  }

  /** Whether a slot is below, at or above another one. */
  lemma SlotOrder(i: Slot, j: Slot)
    ensures i < j || i == j || j < i
    ensures i < j ==> i <= j && i != j && !(j < i)
    ensures i <= 32 && j <= 32
  {
  }

  /** Splicing a child in at the position of a free slot leaves every taken
      slot pointing at the child it had. */
  lemma PositionsAfterSet(bitmap: bv32, free: Slot, i: Slot)
    requires !Has(bitmap, free)
    ensures PopCount(bitmap | Bit(free)) == PopCount(bitmap) + 1
    ensures Rank(bitmap, free) <= PopCount(bitmap)
    ensures Has(bitmap | Bit(free), i) <==> i == free || Has(bitmap, i)
    ensures i == free ==> Rank(bitmap | Bit(free), i) == Rank(bitmap, free)
    ensures i != free && Has(bitmap, i) ==>
      Rank(bitmap | Bit(free), i) ==
        if Rank(bitmap, i) < Rank(bitmap, free) then Rank(bitmap, i) else Rank(bitmap, i) + 1
  {
    hide Has, Bit, Rank, CountBelow, PopCount;
    SetHas(bitmap, free, i);
    RankAfterSet(bitmap, free, i);
    RankInRange(bitmap, free);
    SlotOrder(free, i);
    SlotOrder(i, free);
    if i < free && Has(bitmap, i) {
      RankOrder(bitmap, i, free);
    } else if free < i {
      RankMonotone(bitmap, free, i);
    }
  }

  /** Cutting out the child of a taken slot leaves every other taken slot
      pointing at the child it had. */
  lemma PositionsAfterClear(bitmap: bv32, gone: Slot, i: Slot)
    requires Has(bitmap, gone)
    ensures PopCount(bitmap) == PopCount(bitmap & !Bit(gone)) + 1
    ensures Rank(bitmap, gone) < PopCount(bitmap)
    ensures Has(bitmap & !Bit(gone), i) <==> i != gone && Has(bitmap, i)
    ensures i != gone && Has(bitmap, i) ==>
      && Rank(bitmap, i) != Rank(bitmap, gone)
      && Rank(bitmap & !Bit(gone), i) ==
        if Rank(bitmap, i) < Rank(bitmap, gone) then Rank(bitmap, i) else Rank(bitmap, i) - 1
  {
    hide Has, Bit, Rank, CountBelow, PopCount;
    ClearHas(bitmap, gone, i);
    RankAfterClear(bitmap, gone, i);
    RankInRange(bitmap, gone);
    SlotOrder(gone, i);
    SlotOrder(i, gone);
    if i < gone && Has(bitmap, i) {
      RankOrder(bitmap, i, gone);
    } else if gone < i {
      RankOrder(bitmap, gone, i);
    }
  }

  /** The bitmap of one slot. */
  lemma SingleSlot(i: Slot, j: Slot)
    ensures PopCount(Bit(i)) == 1
    ensures Has(Bit(i), j) <==> j == i
    ensures Rank(Bit(i), i) == 0
  {
    hide Has, Bit, Rank, CountBelow, PopCount;
    NoSlots();
    assert 0 | Bit(i) == Bit(i);
    PositionsAfterSet(0, i, j);
    PositionsAfterSet(0, i, i);
  }

  lemma NoSlots()
    ensures PopCount(0) == 0
    ensures forall i: Slot :: !Has(0, i)
  {
    assert forall i: Slot :: !Has(0, i);
    NoneBelow(32);
  }

  lemma {:induction false} NoneBelow(n: bv32)
    requires n <= 32
    ensures CountBelow(0, n) == 0
    decreases n
  {
    if n > 0 {
      StepBelow(0, n);
      NoneBelow(n - 1);
    }
  }

  lemma SingleSlotBelow(i: Slot, j: Slot)
    requires i < j
    ensures !Has(Bit(i), j) && Rank(Bit(i), j) == 1
  {
    hide Has, Bit, Rank, CountBelow, PopCount;
    SlotOrder(i, j);
    SingleSlot(i, i);
    SingleSlot(i, j);
    RankOrder(Bit(i), i, j);
    RankInRange(Bit(i), j);
  }

  /** The bitmap of two slots keeps them in slot order. */
  lemma TwoSlots(i: Slot, j: Slot, k: Slot)
    requires i < j
    ensures PopCount(Bit(i) | Bit(j)) == 2
    ensures Has(Bit(i) | Bit(j), k) <==> k == i || k == j
    ensures Rank(Bit(i) | Bit(j), i) == 0 && Rank(Bit(i) | Bit(j), j) == 1
  {
    hide Has, Bit, Rank, CountBelow, PopCount;
    SlotOrder(i, j);
    SingleSlot(i, i);
    SingleSlot(i, k);
    SingleSlotBelow(i, j);
    var one := Bit(i);
    PositionsAfterSet(one, j, k);
    PositionsAfterSet(one, j, i);
    PositionsAfterSet(one, j, j);
  }
}
