/** Masking with a power of two less one, bit by bit. */
module Masks {

  predicate IsPow2(n: nat)
    decreases n
  {
    n == 1 || (n > 1 && n % 2 == 0 && IsPow2(n / 2))
  }

  /** `a & b`. */
  function BitAnd(a: nat, b: nat): nat
    decreases b
  {
    if a == 0 || b == 0 then 0 else 2 * BitAnd(a / 2, b / 2) + (a % 2) * (b % 2)
  }

  lemma Halves(n: nat, c: nat)
    requires c > 0
    ensures n % (2 * c) == 2 * ((n / 2) % c) + n % 2
  {
    var q, r := n / 2, n % 2;
    var k, m := q / c, q % c;
    assert n == (2 * c) * k + (2 * m + r);
    Remainder(2 * c, k, 2 * m + r);
  }

  lemma Remainder(d: nat, k: nat, r: nat)
    requires r < d
    ensures (d * k + r) % d == r
  {
    var q, m := (d * k + r) / d, (d * k + r) % d;
    assert d * (q - k) == d * q - d * k == r - m;
    Multiples(d, q - k);
  }

  /** No multiple of `d` but zero lies within `d` of zero. */
  lemma Multiples(d: int, e: int)
    requires d >= 0
    ensures e >= 1 ==> d * e >= d
    ensures e <= -1 ==> d * e <= -d
  {
    if e >= 1 {
      assert d * e == d * (e - 1) + d;
    } else if e <= -1 {
      assert d * e == d * (e + 1) - d;
    }
  }

  /** `n & (cap - 1)` is the remainder by `cap`, a power of two. */
  lemma {:induction false} MaskIsRemainder(n: nat, cap: nat)
    requires IsPow2(cap)
    ensures BitAnd(n, cap - 1) == n % cap
    decreases cap
  {
    if cap > 1 {
      var c := cap / 2;
      MaskIsRemainder(n / 2, c);
      Halves(n, c);
      assert (cap - 1) / 2 == c - 1 && (cap - 1) % 2 == 1;
    }
  }

  /** One step around a table of `cap` slots. */
  lemma Wraps(slot: nat, cap: nat)
    requires slot < cap
    ensures (slot + 1) % cap == if slot + 1 == cap then 0 else slot + 1
  {
  }
}
