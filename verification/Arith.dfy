/** The few facts about products and quotients that the solver does not find alone. */
module Arith {
  /** The product, recursively: stays linear for the solver. */
  function Times(k: nat, d: nat): nat {
    if k == 0 then 0 else Times(k - 1, d) + d
  }

  lemma {:induction false} TimesIsProduct(k: nat, d: nat)
    ensures Times(k, d) == k * d
  {
    if k > 0 {
      TimesIsProduct(k - 1, d);
      assert k * d == (k - 1) * d + d;
    }
  }

  lemma {:induction false} TimesMonotone(j: nat, k: nat, d: nat)
    requires j <= k
    ensures Times(j, d) <= Times(k, d)
    decreases k
  {
    if j < k {
      TimesMonotone(j, k - 1, d);
    }
  }

  lemma MulMonotone(a: int, b: int, d: nat)
    requires a <= b
    ensures a * d <= b * d
  {}

  /** Quotient and remainder are unique. */
  lemma DivUnique(x: int, d: nat, q: int, r: int)
    requires 0 <= r < d && x == q * d + r
    ensures x / d == q && x % d == r
  {
    var p := x / d;
    assert x == p * d + x % d;
    if p > q {
      MulMonotone(q + 1, p, d);
    } else if p < q {
      MulMonotone(p + 1, q, d);
    }
  }

  /** The number of pieces of size d that cover n. */
  lemma CeilIs(n: nat, d: nat, pieces: nat)
    requires d > 0
    requires if n == 0 then pieces == 0 else pieces > 0 && (pieces - 1) * d < n <= pieces * d
    ensures (n + d - 1) / d == pieces
  {
    if n == 0 {
      DivUnique(d - 1, d, 0, d - 1);
    } else {
      assert (pieces - 1) * d == pieces * d - d;
      DivUnique(n + d - 1, d, pieces, n + d - 1 - pieces * d);
    }
  }

  // ---- Positions on a ring ----

  /** Adding on the ring is adding and wrapping. */
  lemma ModAdd(x: nat, k: nat, c: nat)
    requires c > 0
    ensures (x % c + k) % c == (x + k) % c
  {
    var (q, r) := (x / c, x % c);
    var (p, t) := ((r + k) / c, (r + k) % c);
    assert x + k == q * c + r + k == q * c + p * c + t == (q + p) * c + t;
    DivUnique(x + k, c, q + p, t);
  }

  /** Two numbers less than a round apart with the same residue are the same. */
  lemma SameResidue(x: nat, y: nat, c: nat)
    requires x <= y < x + c && x % c == y % c
    ensures x == y
  {
    var (p, q) := (x / c, y / c);
    assert y - x == q * c - p * c == (q - p) * c;
    if q > p {
      MulMonotone(1, q - p, c);
    } else if q < p {
      MulMonotone(q - p, -1, c);
    }
  }

  /** How far y is ahead of x, from their positions. */
  lemma RingDistance(x: nat, y: nat, c: nat)
    requires x <= y < x + c
    ensures y - x == if y % c >= x % c then y % c - x % c else c - x % c + y % c
  {
    var (p, q) := (x / c, y / c);
    var d := q - p;
    assert y - x == (q - p) * c + (y % c - x % c);
    if d >= 2 {
      MulMonotone(2, d, c);
    } else if d < 0 {
      MulMonotone(d, -1, c);
    } else if d == 1 {
      assert d * c == c;
    } else {
      assert d * c == 0;
    }
  }

  lemma MultipleOf(k: nat, d: nat)
    requires d > 0
    ensures Times(k, d) % d == 0 && k * d == Times(k, d)
  {
    TimesIsProduct(k, d);
    DivUnique(k * d, d, k, 0);
  }
}
