/** Remainders by a positive number that is not fixed. */
module Remainders {

  lemma RemainderOf(q: int, p: int, r: int)
    requires 0 <= r < p
    ensures (q * p + r) % p == r
  {
    var x := q * p + r;
    var k, m := x / p, x % p;
    assert x == k * p + m && 0 <= m < p;
    SameRemainder(q, k, p, r, m);
  }

  lemma SameRemainder(q: int, k: int, p: int, r: int, m: int)
    requires 0 <= r < p && 0 <= m < p && q * p + r == k * p + m
    ensures r == m
  {
    assert (k + 1) * p == k * p + p && (q + 1) * p == q * p + p;
    assert k < q ==> (k + 1) * p <= q * p;
    assert k > q ==> (q + 1) * p <= k * p;
  }

  /** Adding a multiple of p keeps the remainder. */
  lemma RemainderOfSum(x: int, y: int, p: int)
    requires p > 0 && y % p == 0
    ensures (x + y) % p == x % p
  {
    var q, r, k := x / p, x % p, y / p;
    assert x == q * p + r && y == k * p;
    assert (q + k) * p == q * p + k * p;
    RemainderOf(q + k, p, r);
  }
}
