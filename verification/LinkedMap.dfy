/** `LinkedMap<K, V>`: an insertion-ordered array of pairs with tombstones,
    and an open-addressed index over it with tombstones of its own. */
module LinkedMap {
  import opened Options
  import opened Keys
  import opened Masks

  /** A pair of pointers; a null key marks a deleted entry. */
  datatype Entry<K, V> = Entry(key: Option<K>, val: Option<V>)

  /** An index slot; `occupied` is 0 for empty, 1 for live, 2 for deleted. */
  datatype IndexSlot<K> = IndexSlot(key: Option<K>, entryIdx: nat, occupied: nat)

  const MIN_IDX_CAP: nat := 8

  /** Masking with `cap - 1`, for a power of two `cap`. */
  function Masked(n: nat, cap: nat): (slot: nat)
    requires IsPow2(cap)
    ensures slot == n % cap
  {
    MaskIsRemainder(n, cap);
    BitAnd(n, cap - 1)
  }

  /** `hash & (cap - 1)`: where a probe starts. */
  function Home(hash: bv64, cap: nat): (slot: nat)
    requires IsPow2(cap)
    ensures slot < cap
  {
    Masked(hash as nat, cap)
  }

  /** `(slot + 1) & (cap - 1)`: the next slot, around the end. */
  function Next(slot: nat, cap: nat): (next: nat)
    requires IsPow2(cap) && slot < cap
    ensures next == if slot + 1 == cap then 0 else slot + 1
  {
    hide IsPow2, BitAnd;
    Wraps(slot, cap);
    Masked(slot + 1, cap)
  }

  // ----- the entries array as a list of pairs

  ghost predicate Live<K, V>(e: Entry<K, V>) {
    e.key.Some?
  }

  /** Live entries carry a value pointer. */
  ghost predicate Filled<K, V>(entries: seq<Entry<K, V>>) {
    forall i :: 0 <= i < |entries| && Live(entries[i]) ==> entries[i].val.Some?
  }

  /** The live pairs, in array order. */
  ghost function Pairs<K, V>(entries: seq<Entry<K, V>>): seq<(K, V)>
    requires Filled(entries)
    decreases |entries|
  {
    if |entries| == 0 then [] else
      var last := entries[|entries| - 1];
      Pairs(entries[..|entries| - 1]) + if Live(last) then [(last.key.value, last.val.value)] else []
  }

  lemma PairsStep<K, V>(entries: seq<Entry<K, V>>, i: nat)
    requires Filled(entries) && i < |entries|
    ensures Pairs(entries[..i + 1]) ==
      Pairs(entries[..i]) + if Live(entries[i]) then [(entries[i].key.value, entries[i].val.value)] else []
  {
    assert entries[..i + 1][..i] == entries[..i];
  }

  lemma {:induction false} PairsPrefix<K, V>(entries: seq<Entry<K, V>>, i: nat, j: nat)
    requires Filled(entries) && i <= j <= |entries|
    ensures Pairs(entries[..i]) <= Pairs(entries[..j])
    decreases j
  {
    if i < j {
      PairsPrefix(entries, i, j - 1);
      PairsStep(entries, j - 1);
    }
  }

  /** The place of live entry `i` among the live pairs. */
  lemma PlaceOf<K, V>(entries: seq<Entry<K, V>>, i: nat)
    requires Filled(entries) && i < |entries| && Live(entries[i])
    ensures var place := |Pairs(entries[..i])|;
      place < |Pairs(entries)| && Pairs(entries)[place] == (entries[i].key.value, entries[i].val.value)
  {
    PairsStep(entries, i);
    PairsPrefix(entries, i + 1, |entries|);
    assert entries[..|entries|] == entries;
  }

  /** Every pair comes from a live entry. */
  lemma {:induction false} EntryOf<K, V>(entries: seq<Entry<K, V>>, place: nat) returns (i: nat)
    requires Filled(entries) && place < |Pairs(entries)|
    ensures i < |entries| && Live(entries[i]) && |Pairs(entries[..i])| == place
    ensures Pairs(entries)[place] == (entries[i].key.value, entries[i].val.value)
    decreases |entries|
  {
    var n := |entries| - 1;
    if place < |Pairs(entries[..n])| {
      i := EntryOf(entries[..n], place);
      assert entries[..n][..i] == entries[..i];
    } else {
      i := n;
    }
  }

  // ----- circular arcs of slots

  /** `x` is met before `to` when probing upwards, with wrap-around, from
      `home`. */
  predicate InArc(home: nat, to: nat, x: nat) {
    if home <= to then home <= x < to else home <= x || x < to
  }

  lemma ArcStep(cap: nat, home: nat, slot: nat, x: nat)
    requires IsPow2(cap) && home < cap && slot < cap && x < cap
    ensures Next(slot, cap) != home ==> (InArc(home, Next(slot, cap), x) <==> InArc(home, slot, x) || x == slot)
    ensures Next(slot, cap) == home ==> InArc(home, slot, x) || x == slot
  {
  }

  // ----- the index

  /** All slots met before `to` hold something. */
  ghost predicate Chain<K>(index: seq<IndexSlot<K>>, home: nat, to: nat) {
    forall x :: 0 <= x < |index| && InArc(home, to, x) ==> index[x].occupied != 0
  }

  /** `pos` assigns to every entry the slot it was indexed at: a bijection
      onto the non-empty slots. A live entry's slot is live, carries its key
      and is reached from its home slot through non-empty slots; a deleted
      entry's slot is an index tombstone. */
  ghost predicate Indexed<K(!new), V>(ops: KeyOps<K>, entries: seq<Entry<K, V>>, index: seq<IndexSlot<K>>,
      pos: seq<nat>) {
    && |pos| == |entries| && IsPow2(|index|)
    && (forall i :: 0 <= i < |pos| ==> pos[i] < |index| && index[pos[i]].occupied != 0 && index[pos[i]].entryIdx == i)
    && (forall s :: 0 <= s < |index| && index[s].occupied != 0 ==>
          index[s].entryIdx < |pos| && pos[index[s].entryIdx] == s)
    && (forall i :: 0 <= i < |entries| ==> SlotFor(ops, entries[i], index, pos[i]))
  }

  ghost predicate SlotFor<K(!new), V>(ops: KeyOps<K>, e: Entry<K, V>, index: seq<IndexSlot<K>>, s: nat)
    requires IsPow2(|index|)
  {
    && s < |index|
    && if Live(e) then
         && index[s].occupied == 1
         && index[s].key == e.key
         && Chain(index, Home(ops.hash(e.key.value), |index|), s)
       else index[s].occupied == 2
  }

  /** At least half the slots are empty, index tombstones counted as taken:
      the taken ones are exactly one per entry. */
  lemma HalfEmpty<K(!new), V>(ops: KeyOps<K>, entries: seq<Entry<K, V>>, index: seq<IndexSlot<K>>, pos: seq<nat>)
    requires Indexed(ops, entries, index, pos) && 2 * |entries| <= |index|
    ensures var taken := set s | 0 <= s < |index| && index[s].occupied != 0;
            |taken| == |entries| && 2 * |taken| <= |index|
  {
    var taken := set s | 0 <= s < |index| && index[s].occupied != 0;
    forall s ensures s in taken <==> s in Image(pos) {
      if s in taken {
        assert pos[index[s].entryIdx] == s;
      }
    }
    assert taken == Image(pos);
    ImageSize(pos);
  }

  ghost function Image(pos: seq<nat>): (image: set<nat>)
    ensures forall s :: s in image <==> s in pos
  {
    if |pos| == 0 then {} else Image(pos[1..]) + {pos[0]}
  }

  lemma {:induction false} ImageSize(pos: seq<nat>)
    requires forall i, j :: 0 <= i < j < |pos| ==> pos[i] != pos[j]
    ensures |Image(pos)| == |pos|
  {
    if |pos| > 0 {
      ImageSize(pos[1..]);
    }
  }

  /** There is always a slot for a probe to stop at. */
  lemma EmptySlot<K(!new), V>(ops: KeyOps<K>, entries: seq<Entry<K, V>>, index: seq<IndexSlot<K>>, pos: seq<nat>)
    requires Indexed(ops, entries, index, pos) && |entries| < |index|
    ensures exists s :: 0 <= s < |index| && index[s].occupied == 0
  {
    if forall s :: 0 <= s < |index| ==> index[s].occupied != 0 {
      forall s | 0 <= s < |index| ensures index[s].entryIdx < |entries| && pos[index[s].entryIdx] == s {
      }
      var back := seq(|index|, s requires 0 <= s < |index| => index[s].entryIdx);
      Pigeonhole(back, |entries|);
    }
  }

  /** Distinct numbers below `n` number at most `n`. */
  lemma {:induction false} Pigeonhole(xs: seq<nat>, n: nat)
    requires forall i :: 0 <= i < |xs| ==> xs[i] < n
    requires forall i, j :: 0 <= i < j < |xs| ==> xs[i] != xs[j]
    ensures |xs| <= n
    decreases n
  {
    if |xs| > 0 {
      assert xs[0] < n;
      if i :| 0 <= i < |xs| && xs[i] == n - 1 {
        Pigeonhole(xs[..i] + xs[i + 1..], n - 1);
      } else {
        Pigeonhole(xs, n - 1);
      }
    }
  }

  // ----- building and probing the index

  method NextPow2(n: nat) returns (p: nat)
    ensures IsPow2(p) && p >= n && p >= MIN_IDX_CAP
    ensures p == MIN_IDX_CAP || p < 2 * n
  {
    p := MIN_IDX_CAP;
    assert IsPow2(8);
    while p < n
      invariant IsPow2(p) && p >= MIN_IDX_CAP
      invariant p == MIN_IDX_CAP || p < 2 * n
    {
      assert (2 * p) % 2 == 0 && (2 * p) / 2 == p;
      p := 2 * p;
    }
  }

  /** How many probes from `slot` reach `goal`. */
  function Ahead(slot: nat, goal: nat, cap: nat): nat
    requires slot < cap && goal < cap
  {
    if slot <= goal then goal - slot else cap - slot + goal
  }

  /** The first empty slot at or after `home`: the inner loop of
      `build_index`, which has no wrap-around check. */
  method ProbeEmpty<K>(index: array<IndexSlot<K>>, home: nat) returns (slot: nat)
    requires IsPow2(index.Length) && home < index.Length
    requires exists s :: 0 <= s < index.Length && index[..][s].occupied == 0
    ensures slot < index.Length && index[slot].occupied == 0
    ensures Chain(index[..], home, slot)
  {
    var cap := index.Length;
    ghost var goal :| 0 <= goal < cap && index[..][goal].occupied == 0;
    slot := home;
    while index[slot].occupied != 0
      invariant slot < cap
      invariant Chain(index[..], home, slot) && !InArc(home, slot, goal)
      decreases Ahead(slot, goal, cap)
    {
      forall x | 0 <= x < cap && InArc(home, Next(slot, cap), x) ensures index[..][x].occupied != 0 {
        ArcStep(cap, home, slot, x);
      }
      ArcStep(cap, home, slot, goal);
      slot := Next(slot, cap);
    }
  }

  /** Writing an empty slot breaks no chain. */
  lemma ChainGrows<K>(index: seq<IndexSlot<K>>, s: nat, filled: IndexSlot<K>, home: nat, to: nat)
    requires s < |index| && filled.occupied != 0 && Chain(index, home, to)
    ensures Chain(index[s := filled], home, to)
  {
  }

  /** Indexing one more entry at the slot its probe ended at. */
  lemma IndexedStep<K(!new), V>(ops: KeyOps<K>, entries: seq<Entry<K, V>>, e: Entry<K, V>, index: seq<IndexSlot<K>>,
      pos: seq<nat>, s: nat)
    requires Indexed(ops, entries, index, pos) && Live(e)
    requires s < |index| && index[s].occupied == 0
    requires Chain(index, Home(ops.hash(e.key.value), |index|), s)
    ensures Indexed(ops, entries + [e], index[s := IndexSlot(e.key, |entries|, 1)], pos + [s])
  {
    var filled := IndexSlot(e.key, |entries|, 1);
    var index' := index[s := filled];
    var entries', pos' := entries + [e], pos + [s];
    forall i | 0 <= i < |entries'| ensures SlotFor(ops, entries'[i], index', pos'[i]) {
      if i < |entries| {
        assert SlotFor(ops, entries[i], index, pos[i]);
        assert pos[i] != s;
        if Live(entries[i]) {
          ChainGrows(index, s, filled, Home(ops.hash(entries[i].key.value), |index|), pos[i]);
        }
      } else {
        ChainGrows(index, s, filled, Home(ops.hash(e.key.value), |index|), s);
      }
    }
  }

  /** `build_index` over a tombstone-free array. */
  method BuildIndex<K(!new), V>(ops: KeyOps<K>, entries: array<Entry<K, V>>, cap: nat)
    returns (index: array<IndexSlot<K>>, ghost pos: seq<nat>)
    requires forall i :: 0 <= i < entries.Length ==> Live(entries[i])
    requires IsPow2(cap) && 2 * entries.Length <= cap
    ensures fresh(index) && index.Length == cap
    ensures Indexed(ops, entries[..], index[..], pos)
  {
    index := new IndexSlot<K>[cap](_ => IndexSlot(None, 0, 0));
    pos := [];
    for i := 0 to entries.Length
      invariant Indexed(ops, entries[..i], index[..], pos)
    {
      var e := entries[i];
      EmptySlot(ops, entries[..i], index[..], pos);
      var slot := ProbeEmpty(index, Home(ops.hash(e.key.value), cap));
      IndexedStep(ops, entries[..i], e, index[..], pos, slot);
      index[slot] := IndexSlot(e.key, i, 1);
      pos := pos + [slot];
      assert entries[..i + 1] == entries[..i] + [e];
    }
    assert entries[..] == entries[..entries.Length];
  }

  /** No live slot among those met before `to` carries an equal key. */
  ghost predicate MissedSoFar<K(!new)>(ops: KeyOps<K>, index: seq<IndexSlot<K>>, home: nat, to: nat, key: K) {
    forall x :: 0 <= x < |index| && InArc(home, to, x) ==> !Hit(ops, index[x], key)
  }

  ghost predicate Hit<K(!new)>(ops: KeyOps<K>, s: IndexSlot<K>, key: K) {
    s.occupied == 1 && s.key.Some? && ops.eq(s.key.value, key)
  }

  /** A live entry with an equal key sits in a live slot that the probe for
      the key meets before any empty slot. */
  lemma EntryIsMet<K(!new), V>(ops: KeyOps<K>, entries: seq<Entry<K, V>>, index: seq<IndexSlot<K>>, pos: seq<nat>,
      key: K, i: nat)
    requires ops.Lawful() && Indexed(ops, entries, index, pos) && 0 < |index|
    requires i < |entries| && Live(entries[i]) && ops.eq(entries[i].key.value, key)
    ensures pos[i] < |index| && Hit(ops, index[pos[i]], key) && index[pos[i]].entryIdx == i
    ensures Chain(index, Home(ops.hash(key), |index|), pos[i])
  {
    assert SlotFor(ops, entries[i], index, pos[i]);
  }

  lemma ArcTotal(cap: nat, home: nat, a: nat, b: nat)
    requires home < cap && a < cap && b < cap
    ensures a == b || InArc(home, a, b) || InArc(home, b, a)
  {
  }

  /** A probe that missed up to an empty slot proves the key absent. */
  lemma NothingMet<K(!new), V>(ops: KeyOps<K>, entries: seq<Entry<K, V>>, index: seq<IndexSlot<K>>, pos: seq<nat>,
      key: K, slot: nat)
    requires ops.Lawful() && Indexed(ops, entries, index, pos)
    requires slot < |index| && index[slot].occupied == 0
    requires MissedSoFar(ops, index, Home(ops.hash(key), |index|), slot, key)
    ensures forall i :: 0 <= i < |entries| && Live(entries[i]) ==> !ops.eq(entries[i].key.value, key)
  {
    forall i | 0 <= i < |entries| && Live(entries[i]) ensures !ops.eq(entries[i].key.value, key) {
      if ops.eq(entries[i].key.value, key) {
        EntryIsMet(ops, entries, index, pos, key, i);
        ArcTotal(|index|, Home(ops.hash(key), |index|), slot, pos[i]);
      }
    }
  }

  /** So does a probe that missed all the way around. */
  lemma AllMissed<K(!new), V>(ops: KeyOps<K>, entries: seq<Entry<K, V>>, index: seq<IndexSlot<K>>, pos: seq<nat>,
      key: K, slot: nat)
    requires ops.Lawful() && Indexed(ops, entries, index, pos) && slot < |index|
    requires Next(slot, |index|) == Home(ops.hash(key), |index|) && !Hit(ops, index[slot], key)
    requires MissedSoFar(ops, index, Home(ops.hash(key), |index|), slot, key)
    ensures forall i :: 0 <= i < |entries| && Live(entries[i]) ==> !ops.eq(entries[i].key.value, key)
  {
    forall i | 0 <= i < |entries| && Live(entries[i]) ensures !ops.eq(entries[i].key.value, key) {
      if ops.eq(entries[i].key.value, key) {
        EntryIsMet(ops, entries, index, pos, key, i);
        ArcStep(|index|, Home(ops.hash(key), |index|), slot, pos[i]);
      }
    }
  }

  /** `index_lookup`: the live entry with an equal key, if there is one. */
  method IndexLookup<K(!new), V>(ops: KeyOps<K>, ghost entries: seq<Entry<K, V>>, index: array<IndexSlot<K>>,
      ghost pos: seq<nat>, key: K)
    returns (r: Option<nat>)
    requires ops.Lawful() && Indexed(ops, entries, index[..], pos)
    requires index.Length > 0
    ensures match r
      case Some(i) => i < |entries| && Live(entries[i]) && ops.eq(entries[i].key.value, key)
      case None => forall i :: 0 <= i < |entries| && Live(entries[i]) ==> !ops.eq(entries[i].key.value, key)
  {
    var cap := index.Length;
    var start := Home(ops.hash(key), cap);
    var slot: nat := start;
    ghost var probes := 0;
    while true
      invariant slot < cap
      invariant MissedSoFar(ops, index[..], start, slot, key)
      invariant probes == Ahead(start, slot, cap)
      decreases cap - probes
    {
      var s := index[slot];
      if s.occupied == 0 {
        NothingMet(ops, entries, index[..], pos, key, slot);
        return None;
      }
      assert pos[s.entryIdx] == slot && SlotFor(ops, entries[s.entryIdx], index[..], slot);
      if s.occupied == 1 && ops.eq(s.key.value, key) {
        return Some(s.entryIdx);
      }
      forall x | 0 <= x < cap && InArc(start, Next(slot, cap), x) ensures !Hit(ops, index[..][x], key) {
        ArcStep(cap, start, slot, x);
      }
      if Next(slot, cap) == start {
        AllMissed(ops, entries, index[..], pos, key, slot);
        return None;
      }
      slot := Next(slot, cap);
      probes := probes + 1;
    }
  }

  // ----- the map object

  /** `TyraLinkedMap`. Its fields are written once, by the constructor; its
      arrays may be shared with the map it was derived from. */
  class LinkedMap<K(!new), V> {
    const ops: KeyOps<K>
    const live: nat
    const entries: array<Entry<K, V>>
    const index: array<IndexSlot<K>>
    /** Where each entry was indexed. */
    ghost const pos: seq<nat>

    constructor (ops: KeyOps<K>, live: nat, entries: array<Entry<K, V>>, index: array<IndexSlot<K>>,
        ghost pos: seq<nat>)
      ensures this.ops == ops && this.live == live && this.entries == entries && this.index == index && this.pos == pos
    {
      this.ops, this.live, this.entries, this.index, this.pos := ops, live, entries, index, pos;
    }

    /** The reachable states. */
    ghost predicate Valid()
      reads entries, index
    {
      && ops.Lawful()
      && Filled(entries[..])
      && Distinct(ops, Pairs(entries[..]))
      && live == |Pairs(entries[..])|
      && 2 * entries.Length <= index.Length
      && MIN_IDX_CAP <= index.Length && IsPow2(index.Length)
      && Indexed(ops, entries[..], index[..], pos)
    }

    /** The live pairs in insertion order. */
    ghost function Contents(): seq<(K, V)>
      requires Filled(entries[..])
      reads entries
    {
      Pairs(entries[..])
    }
  }

  /** `tyra_linked_map_new`. */
  method LinkedMapNew<K(!new), V>(ops: KeyOps<K>) returns (m: LinkedMap<K, V>)
    requires ops.Lawful()
    ensures m.Valid() && m.ops == ops && m.Contents() == []
    ensures fresh(m.entries) && fresh(m.index)
  {
    var entries := new Entry<K, V>[0];
    var index := new IndexSlot<K>[MIN_IDX_CAP](_ => IndexSlot(None, 0, 0));
    assert IsPow2(8);
    m := new LinkedMap(ops, 0, entries, index, []);
  }

  /** `make_map`: a map over a tombstone-free array. */
  method MakeMap<K(!new), V>(ops: KeyOps<K>, entries: array<Entry<K, V>>) returns (m: LinkedMap<K, V>)
    requires ops.Lawful() && Filled(entries[..]) && Distinct(ops, Pairs(entries[..]))
    requires forall i :: 0 <= i < entries.Length ==> Live(entries[i])
    ensures m.Valid() && m.ops == ops && m.entries == entries && fresh(m.index)
  {
    var count := entries.Length;
    var cap := NextPow2(if count == 0 then MIN_IDX_CAP else 2 * count);
    var index, pos := BuildIndex(ops, entries, cap);
    AllLivePairs(entries[..]);
    m := new LinkedMap(ops, count, entries, index, pos);
  }

  lemma {:induction false} AllLivePairs<K, V>(entries: seq<Entry<K, V>>)
    requires Filled(entries) && forall i :: 0 <= i < |entries| ==> Live(entries[i])
    ensures |Pairs(entries)| == |entries|
    decreases |entries|
  {
    if |entries| > 0 {
      AllLivePairs(entries[..|entries| - 1]);
    }
  }

  /** An array whose elements are exactly the given pairs, in order. */
  ghost predicate Holds<K, V>(entries: seq<Entry<K, V>>, pairs: seq<(K, V)>) {
    |entries| == |pairs| && forall i :: 0 <= i < |pairs| ==> entries[i] == Entry(Some(pairs[i].0), Some(pairs[i].1))
  }

  lemma {:induction false} HoldsPairs<K, V>(entries: seq<Entry<K, V>>, pairs: seq<(K, V)>)
    requires Holds(entries, pairs)
    ensures Filled(entries) && Pairs(entries) == pairs
    ensures forall i :: 0 <= i < |entries| ==> Live(entries[i])
    decreases |entries|
  {
    if |entries| > 0 {
      var n := |entries| - 1;
      HoldsPairs(entries[..n], pairs[..n]);
      assert pairs == pairs[..n] + [pairs[n]];
    }
  }

  lemma PairsNext<K, V>(entries: seq<Entry<K, V>>, i: nat)
    requires Filled(entries) && i < |entries|
    ensures Pairs(entries[..i + 1]) ==
      Pairs(entries[..i]) + if Live(entries[i]) then [(entries[i].key.value, entries[i].val.value)] else []
    ensures |Pairs(entries[..i + 1])| <= |Pairs(entries)|
  {
    hide Pairs;
    PairsStep(entries, i);
    PairsPrefix(entries, i + 1, |entries|);
    assert entries[..|entries|] == entries;
  }

  /** The compaction loops of insertion: the live entries of `entries`, in
      order, at the front of a fresh array of length `size`; and where the
      entry `watched` went. */
  method Compacted<K, V>(entries: array<Entry<K, V>>, size: nat, watched: nat)
      returns (a: array<Entry<K, V>>, newIdx: nat)
    requires Filled(entries[..]) && |Pairs(entries[..])| <= size
    ensures fresh(a) && a.Length == size
    ensures Holds(a[..|Pairs(entries[..])|], Pairs(entries[..]))
    ensures watched < entries.Length && Live(entries[watched]) ==> newIdx == |Pairs(entries[..watched])|
  {
    a := new Entry<K, V>[size](_ => Entry(None, None));
    var dst := 0;
    newIdx := 0;
    for src := 0 to entries.Length
      invariant dst == |Pairs(entries[..src])| <= size
      invariant Holds(a[..dst], Pairs(entries[..src]))
      invariant watched < src && Live(entries[watched]) ==> newIdx == |Pairs(entries[..watched])|
    {
      var e := entries[src];
      PairsNext(entries[..], src);
      assert entries[..][..src + 1] == entries[..src + 1] && entries[..][..src] == entries[..src];
      if e.key.Some? {
        ghost var before := a[..dst];
        a[dst] := Entry(e.key, e.val);
        assert a[..dst + 1] == before + [e];
        if src == watched {
          newIdx := dst;
        }
        dst := dst + 1;
      }
    }
    assert entries[..entries.Length] == entries[..];
  }

  /** The place of the entry that lookup found is the place where the list of
      pairs has the key. */
  lemma FoundPlace<K(!new), V>(ops: KeyOps<K>, entries: seq<Entry<K, V>>, key: K, i: nat)
    requires ops.Lawful() && Filled(entries) && Distinct(ops, Pairs(entries))
    requires i < |entries| && Live(entries[i]) && ops.eq(entries[i].key.value, key)
    ensures Find(ops, Pairs(entries), key) == |Pairs(entries[..i])| < |Pairs(entries)|
    ensures Pairs(entries)[|Pairs(entries[..i])|].0 == entries[i].key.value
  {
    PlaceOf(entries, i);
    FindUnique(ops, Pairs(entries), key, |Pairs(entries[..i])|);
  }

  lemma NotFound<K(!new), V>(ops: KeyOps<K>, entries: seq<Entry<K, V>>, key: K)
    requires Filled(entries)
    requires forall i :: 0 <= i < |entries| && Live(entries[i]) ==> !ops.eq(entries[i].key.value, key)
    ensures Find(ops, Pairs(entries), key) == |Pairs(entries)|
  {
    var place := Find(ops, Pairs(entries), key);
    if place < |Pairs(entries)| {
      var i := EntryOf(entries, place);
    }
  }

  /** The key-exists arm of insertion. */
  method Overwrite<K(!new), V>(m: LinkedMap<K, V>, key: K, val: V, entryIdx: nat) returns (r: LinkedMap<K, V>)
    requires m.Valid() && entryIdx < m.entries.Length
    requires Live(m.entries[entryIdx]) && m.ops.eq(m.entries[entryIdx].key.value, key)
    ensures r.Valid() && r.ops == m.ops && fresh(r.entries) && fresh(r.index)
    ensures r.Contents() == AssocInsert(m.ops, m.Contents(), key, val)
  {
    ghost var pairs := m.Contents();
    ghost var want := AssocInsert(m.ops, pairs, key, val);
    AssocInsertGet(m.ops, pairs, key, val, key);
    FoundPlace(m.ops, m.entries[..], key, entryIdx);
    assert m.entries[..][..entryIdx] == m.entries[..entryIdx];
    var newEntries, newIdx := Compacted(m.entries, m.live, entryIdx);
    assert newEntries[..m.live] == newEntries[..];
    newEntries[newIdx] := newEntries[newIdx].(val := Some(val));
    assert Holds(newEntries[..], want);
    HoldsPairs(newEntries[..], want);
    r := MakeMap(m.ops, newEntries);
  }

  /** The new-key arm of insertion. */
  method Append<K(!new), V>(m: LinkedMap<K, V>, key: K, val: V) returns (r: LinkedMap<K, V>)
    requires m.Valid() && Find(m.ops, m.Contents(), key) == |m.Contents()|
    ensures r.Valid() && r.ops == m.ops && fresh(r.entries) && fresh(r.index)
    ensures r.Contents() == AssocInsert(m.ops, m.Contents(), key, val)
  {
    ghost var pairs := m.Contents();
    ghost var want := AssocInsert(m.ops, pairs, key, val);
    AssocInsertGet(m.ops, pairs, key, val, key);
    var newEntries, _ := Compacted(m.entries, m.live + 1, m.entries.Length);
    ghost var front := newEntries[..m.live];
    newEntries[m.live] := Entry(Some(key), Some(val));
    assert newEntries[..] == front + [Entry(Some(key), Some(val))];
    HoldsPairs(newEntries[..], want);
    r := MakeMap(m.ops, newEntries);
  }

  /** `tyra_linked_map_insert`: an equal key keeps its place and its key box,
      a new key goes last. Nothing existing is written: the result has fresh
      arrays, so the old map still holds what it held. */
  method LinkedMapInsert<K(!new), V>(m: LinkedMap<K, V>, key: K, val: V) returns (r: LinkedMap<K, V>)
    requires m.Valid()
    ensures r.Valid() && r.ops == m.ops && fresh(r.entries) && fresh(r.index)
    ensures r.Contents() == AssocInsert(m.ops, m.Contents(), key, val)
    ensures Absent(m.ops, m.Contents(), key) ==> r.Contents() == m.Contents() + [(key, val)]
    ensures !Absent(m.ops, m.Contents(), key) ==>
      exists i: nat :: OverwrittenAt(m.ops, m.Contents(), r.Contents(), i, key, val)
  {
    AssocInsertAt(m.ops, m.Contents(), key, val);
    var existing := IndexLookup(m.ops, m.entries[..], m.index, m.pos, key);
    if existing.Some? {
      r := Overwrite(m, key, val, existing.value);
    } else {
      NotFound(m.ops, m.entries[..], key);
      r := Append(m, key, val);
    }
  }

  // ----- removal

  /** Deleting a live entry in place takes exactly its pair out of the list. */
  lemma {:induction false} TombstonePairs<K, V>(entries: seq<Entry<K, V>>, i: nat, dead: Entry<K, V>)
    requires Filled(entries) && i < |entries| && Live(entries[i]) && !Live(dead)
    ensures Filled(entries[i := dead])
    ensures var place := |Pairs(entries[..i])|;
      && place < |Pairs(entries)|
      && Pairs(entries[i := dead]) == Pairs(entries)[..place] + Pairs(entries)[place + 1..]
    decreases |entries|
  {
    var n := |entries| - 1;
    var after := entries[i := dead];
    var place := |Pairs(entries[..i])|;
    assert after[..n][..i] == entries[..i];
    if i < n {
      TombstonePairs(entries[..n], i, dead);
      assert after[..n] == entries[..n][i := dead];
      assert entries[..n][..i] == entries[..i];
      assert Pairs(entries) == Pairs(entries[..n]) + Pairs(entries)[|Pairs(entries[..n])|..];
    } else {
      assert after[..n] == entries[..n];
    }
  }

  /** Turning the entry's slot into an index tombstone keeps every chain. */
  lemma IndexedAfterRemove<K(!new), V>(ops: KeyOps<K>, entries: seq<Entry<K, V>>, index: seq<IndexSlot<K>>,
      pos: seq<nat>, i: nat, dead: Entry<K, V>)
    requires Indexed(ops, entries, index, pos) && i < |entries| && Live(entries[i]) && !Live(dead)
    ensures pos[i] < |index|
    ensures Indexed(ops, entries[i := dead], index[pos[i] := index[pos[i]].(occupied := 2)], pos)
  {
    var s := pos[i];
    var filled := index[s].(occupied := 2);
    forall j | 0 <= j < |entries| ensures SlotFor(ops, entries[i := dead][j], index[s := filled], pos[j]) {
      assert SlotFor(ops, entries[j], index, pos[j]);
      if j != i && Live(entries[j]) {
        assert pos[j] != s;
        ChainGrows(index, s, filled, Home(ops.hash(entries[j].key.value), |index|), pos[j]);
      }
    }
  }

  /** The second probe of removal, which has no wrap-around check: it stops
      at the slot of the entry that lookup found. */
  method ProbeEntry<K(!new), V>(ops: KeyOps<K>, ghost entries: seq<Entry<K, V>>, index: array<IndexSlot<K>>,
      ghost pos: seq<nat>, home: nat, entryIdx: nat)
    returns (slot: nat)
    requires Indexed(ops, entries, index[..], pos) && home < index.Length
    requires entryIdx < |entries| && Live(entries[entryIdx])
    ensures slot < index.Length && slot == pos[entryIdx]
  {
    var cap := index.Length;
    ghost var goal := pos[entryIdx];
    assert SlotFor(ops, entries[entryIdx], index[..], goal);
    slot := home;
    while !(index[slot].occupied == 1 && index[slot].entryIdx == entryIdx)
      invariant slot < cap && !InArc(home, slot, goal)
      decreases Ahead(slot, goal, cap)
    {
      ArcStep(cap, home, slot, goal);
      slot := Next(slot, cap);
    }
  }

  /** `tyra_linked_map_remove`. An absent key shares both arrays with the old
      map; a present one tombstones a copy of each. */
  method LinkedMapRemove<K(!new), V>(m: LinkedMap<K, V>, key: K) returns (r: LinkedMap<K, V>)
    requires m.Valid()
    ensures r.Valid() && r.ops == m.ops
    ensures r.Contents() == AssocRemove(m.ops, m.Contents(), key)
    ensures Absent(m.ops, m.Contents(), key) ==> r.Contents() == m.Contents()
    ensures !Absent(m.ops, m.Contents(), key) ==> exists i :: CutAt(m.ops, m.Contents(), r.Contents(), i, key)
    ensures if Absent(m.ops, m.Contents(), key) then r.entries == m.entries && r.index == m.index
            else fresh(r.entries) && fresh(r.index)
  {
    var existing := IndexLookup(m.ops, m.entries[..], m.index, m.pos, key);
    FindAbsent(m.ops, m.Contents(), key);
    AssocRemoveAt(m.ops, m.Contents(), key);
    if existing.None? {
      NotFound(m.ops, m.entries[..], key);
      r := new LinkedMap(m.ops, m.live, m.entries, m.index, m.pos);
    } else {
      r := RemoveEntry(m, key, existing.value);
    }
  }

  /** A copy of the entries with one key pointer cleared. */
  method TombstonedEntries<K, V>(entries: array<Entry<K, V>>, i: nat) returns (a: array<Entry<K, V>>)
    requires i < entries.Length
    ensures fresh(a) && a[..] == entries[..][i := entries[i].(key := None)]
  {
    a := new Entry<K, V>[entries.Length](j requires 0 <= j < entries.Length reads entries => entries[j]);
    a[i] := a[i].(key := None);
  }

  /** A copy of the index with the entry's slot marked deleted. */
  method TombstonedIndex<K(!new), V>(ops: KeyOps<K>, ghost entries: seq<Entry<K, V>>, index: array<IndexSlot<K>>,
      ghost pos: seq<nat>, home: nat, entryIdx: nat)
    returns (a: array<IndexSlot<K>>)
    requires Indexed(ops, entries, index[..], pos) && home < index.Length
    requires entryIdx < |entries| && Live(entries[entryIdx])
    ensures pos[entryIdx] < index.Length
    ensures fresh(a) && a[..] == index[..][pos[entryIdx] := index[pos[entryIdx]].(occupied := 2)]
  {
    a := new IndexSlot<K>[index.Length](s requires 0 <= s < index.Length reads index => index[s]);
    assert a[..] == index[..];
    var slot := ProbeEntry(ops, entries, a, pos, home, entryIdx);
    a[slot] := a[slot].(occupied := 2);
  }

  method RemoveEntry<K(!new), V>(m: LinkedMap<K, V>, key: K, entryIdx: nat) returns (r: LinkedMap<K, V>)
    requires m.Valid() && entryIdx < m.entries.Length
    requires Live(m.entries[entryIdx]) && m.ops.eq(m.entries[entryIdx].key.value, key)
    ensures r.Valid() && r.ops == m.ops && fresh(r.entries) && fresh(r.index)
    ensures Find(m.ops, m.Contents(), key) < |m.Contents()|
    ensures r.Contents() == AssocRemove(m.ops, m.Contents(), key)
  {
    ghost var entries := m.entries[..];
    ghost var dead := entries[entryIdx].(key := None);
    AssocRemoveGet(m.ops, m.Contents(), key, key);
    FoundPlace(m.ops, entries, key, entryIdx);
    TombstonePairs(entries, entryIdx, dead);
    FindAbsent(m.ops, m.Contents(), key);
    IndexedAfterRemove(m.ops, entries, m.index[..], m.pos, entryIdx, dead);
    var newEntries := TombstonedEntries(m.entries, entryIdx);
    var newIndex := TombstonedIndex(m.ops, entries, m.index, m.pos, Home(m.ops.hash(key), m.index.Length), entryIdx);
    r := new LinkedMap(m.ops, m.live - 1, newEntries, newIndex, m.pos);
  }

  // ----- reading

  /** `tyra_linked_map_get`. */
  method LinkedMapGet<K(!new), V>(m: LinkedMap<K, V>, key: K) returns (r: Option<V>)
    requires m.Valid()
    ensures r == Get(m.ops, m.Contents(), key)
  {
    var existing := IndexLookup(m.ops, m.entries[..], m.index, m.pos, key);
    if existing.None? {
      NotFound(m.ops, m.entries[..], key);
      r := None;
    } else {
      FoundPlace(m.ops, m.entries[..], key, existing.value);
      PlaceOf(m.entries[..], existing.value);
      r := m.entries[existing.value].val;
    }
  }

  /** `tyra_linked_map_len`. */
  method LinkedMapLen<K(!new), V>(m: LinkedMap<K, V>) returns (n: nat)
    requires m.Valid()
    ensures n == |m.Contents()|
  {
    n := m.live;
  }

  /** `tyra_linked_map_for_each`: the visits are the pairs, in insertion
      order. */
  method LinkedMapForEach<K(!new), V>(m: LinkedMap<K, V>) returns (visits: seq<(K, V)>)
    requires m.Valid()
    ensures visits == m.Contents()
  {
    visits := [];
    for i := 0 to m.entries.Length
      invariant visits == Pairs(m.entries[..i])
    {
      var e := m.entries[i];
      PairsStep(m.entries[..], i);
      assert m.entries[..][..i + 1] == m.entries[..i + 1] && m.entries[..][..i] == m.entries[..i];
      if e.key.Some? {
        visits := visits + [(e.key.value, e.val.value)];
      }
    }
    assert m.entries[..] == m.entries[..m.entries.Length];
  }
}
