/** Small facts about non-negative multiplication, division and remainder that the
    solver does not find on its own. */
module Arith {

  lemma MulMono(a: nat, b: nat, c: nat)
    requires a <= b
    ensures a * c <= b * c
  {
  }

  /** b·p + q with q < b determines p and q. */
  lemma UniqueSplit(p: nat, q: nat, p': nat, q': nat, b: nat)
    requires q < b && q' < b && b * p + q == b * p' + q'
    ensures p == p' && q == q'
  {
    if p < p' { MulMono(p + 1, p', b); }
    else if p' < p { MulMono(p' + 1, p, b); }
  }

  /** Division and remainder are the unique quotient and remainder. */
  lemma DivModUnique(y: nat, k: nat, q: nat, r: nat)
    requires r < k && y == k * q + r
    ensures y / k == q && y % k == r
  {
    UniqueSplit(q, r, y / k, y % k, k);
  }

  /** n / d is the floor of the quotient. */
  lemma DivFloor(n: nat, d: nat)
    requires d >= 1
    ensures (n / d) * d <= n < (n / d + 1) * d
  {
  }

  /** A product of three naturals is a natural. */
  lemma MulNat(a: nat, b: nat, c: nat)
    ensures a * b * c >= 0
  {
  }

  lemma MulPos(a: nat, b: nat)
    requires a >= 1 && b >= 1
    ensures a * b >= 1
  {
    MulMono(1, a, b);
  }

  /** Cancelling a positive factor from a strict inequality. */
  lemma MulCancelLess(p: nat, q: nat, d: nat)
    requires p * d < q * d
    ensures p < q
  {
    if p >= q { MulMono(q, p, d); }
  }

  lemma DivBelow(y: nat, k: nat, n: nat)
    requires k >= 1 && y < k * n
    ensures y / k < n
  {
  }

  /** A value below a·b splits into a quotient below a and a remainder below b. */
  lemma SplitRank(v: nat, a: nat, b: nat)
    requires b >= 1 && v < a * b
    ensures v / b < a && v == b * (v / b) + v % b && v % b < b
  {
  }

  /** A position is determined by its quotient and remainder by k. */
  lemma UniqueDivMod(y: nat, y': nat, k: nat)
    requires k >= 1 && y % k == y' % k && y / k == y' / k
    ensures y == y'
  {
  }

  /** Rebuilding a position from a coarse index yb < sb and a fine index ya < sa. */
  lemma Rebuild(yb: nat, ya: nat, sa: nat, sb: nat)
    requires ya < sa && yb < sb
    ensures yb * sa + ya < sa * sb
    ensures (yb * sa + ya) % sa == ya && (yb * sa + ya) / sa == yb
  {
    MulMono(yb + 1, sb, sa);
    DivModUnique(yb * sa + ya, sa, yb, ya);
  }

  lemma ModShift(i: nat, k: nat)
    requires k >= 1 && i >= k
    ensures (i - k) % k == i % k
  {
    DivModUnique(i, k, (i - k) / k + 1, (i - k) % k);
  }
}
