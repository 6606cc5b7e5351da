/** Products of reals that the proofs keep folded, and the few laws they need. */
module RealProducts {

  function Times(x: real, y: real): real {
    x * y
  }

  lemma Unfold(x: real, y: real)
    ensures x * y == Times(x, y)
  {
  }

  lemma NotNegative(x: real, y: real)
    requires x >= 0.0 && y >= 0.0
    ensures Times(x, y) >= 0.0
  {
  }

  lemma Monotone(v: real, x: real, y: real)
    requires v >= 0.0 && x <= y
    ensures Times(v, x) <= Times(v, y)
  {
    NotNegative(v, y - x);
    assert Times(v, y - x) == Times(v, y) - Times(v, x);
  }

  lemma Between(x: real, y: real, top: real)
    requires x >= 0.0 && 0.0 <= y <= top
    ensures 0.0 <= Times(x, y) <= Times(x, top)
  {
    NotNegative(x, y);
    Monotone(x, y, top);
  }

  lemma Commute(x: real, y: real)
    ensures Times(x, y) == Times(y, x)
  {
  }

  lemma Positive(x: real, y: real)
    requires x > 0.0 && y > 0.0
    ensures Times(x, y) > 0.0
  {
  }

  lemma SameSquare(x: real)
    ensures Times(x, x) == Times(-x, -x)
  {
  }

  lemma SquareIsZero(x: real)
    ensures Times(x, x) >= 0.0
    ensures Times(x, x) == 0.0 <==> x == 0.0
  {
    assert x == 0.0 ==> Times(x, x) == 0.0;
    hide Times;
    if x > 0.0 {
      Positive(x, x);
    } else if x < 0.0 {
      Positive(-x, -x);
      SameSquare(x);
    }
  }

  lemma Sum(x: real, y: real, z: real)
    ensures Times(x + y, z) == Times(x, z) + Times(y, z)
  {
  }

  lemma Quotient(x: real, d: real, q: real)
    requires d > 0.0 && q == x / d
    ensures x == Times(q, d)
  {
  }

  lemma Over(x: real, y: real, d: real)
    requires d > 0.0 && x == Times(y, d)
    ensures x / d == y
  {
  }
}
