/** Facts about division, and increasing sequences of numbers. */
module Arithmetic {

  function Min(a: nat, b: nat): nat {
    if a < b then a else b
  }

  lemma {:induction false} ProductGrows(q: int, q': int, p: nat)
    ensures q < q' ==> q * p + p <= q' * p
    decreases q' - q
  {
    if q < q' {
      assert q' * p == (q' - 1) * p + p;
      ProductGrows(q, q' - 1, p);
    }
  }

  lemma QuotientUnique(p: nat, q: int, r: nat, q': int, r': nat)
    requires r < p && r' < p && q * p + r == q' * p + r'
    ensures q == q' && r == r'
  {
    ProductGrows(q, q', p);
    ProductGrows(q', q, p);
  }

  lemma DivModUnique(x: int, p: nat, q: int, r: nat)
    requires r < p && x == q * p + r
    ensures x / p == q && x % p == r
  {
    var q', r' := x / p, x % p;
    assert q' * p + r' == x;
    QuotientUnique(p, q, r, q', r');
  }

  /** Strictly increasing numbers in `[lo, hi)`. */
  predicate Ascending(ns: seq<nat>, lo: nat, hi: nat) {
    && (forall i :: 0 <= i < |ns| ==> lo <= ns[i] < hi)
    && (forall i, j :: 0 <= i < j < |ns| ==> ns[i] < ns[j])
  }

  lemma PrependAscending(n: nat, ns: seq<nat>, lo: nat, hi: nat)
    requires n < lo && n < hi && Ascending(ns, lo, hi)
    ensures Ascending([n] + ns, n, hi)
  {
  }
}
