/**
 * Facts about multiplication, division and the integer part that the
 * solver finds only unreliably on its own. Each lemma carries one
 * non-linear step.
 */
module Arithmetic {

  lemma MulCancelLt(x: nat, y: nat, t: nat) requires x * t < y * t ensures x < y {}
  lemma MulMonoLe(x: nat, y: nat, t: nat) requires x <= y ensures x * t <= y * t {}
  lemma MulMonoLt(x: nat, y: nat, t: nat) requires x < y && 0 < t ensures x * t < y * t {}
  lemma MulSucc(x: nat, t: nat) ensures (x + 1) * t == x * t + t {}
  lemma DivBounds(n: nat, d: nat) requires 0 < d ensures (n / d) * d <= n < (n / d + 1) * d {}
  lemma DivModSplit(n: nat, d: nat) requires 0 < d ensures n == (n / d) * d + n % d {}
  lemma CastMul(x: nat, y: nat) ensures ((x * y) as real) == (x as real) * (y as real) {}

  /** A multiple of `p` leaves no remainder. */
  lemma ModOfMultiple(k: nat, p: nat)
    requires 0 < p
    ensures (k * p) % p == 0
  {
    var q := (k * p) / p;
    DivBounds(k * p, p);
    MulCancelLt(k, q + 1, p);
    MulSucc(k, p);
    MulCancelLt(q, k + 1, p);
    DivModSplit(k * p, p);
  }

  /** Dividing a bracket `q*t <= n < (q+1)*t` by `t` in the reals. */
  lemma RealQuotientBounds(q: nat, n: nat, t: nat)
    requires 0 < t && q * t <= n < (q + 1) * t
    ensures (q as real) <= (n as real) / (t as real) < ((q + 1) as real)
  {
    CastMul(q, t);
    CastMul(q + 1, t);
    RealLeDiv(q as real, n as real, t as real);
    RealDivLt(n as real, (q + 1) as real, t as real);
  }

  lemma RealLeDiv(a: real, b: real, c: real)
    requires 0.0 < c && a * c <= b
    ensures a <= b / c
  {
    assert b / c * c == b;
  }

  lemma RealDivLt(b: real, a: real, c: real)
    requires 0.0 < c && b < a * c
    ensures b / c < a
  {
    assert b / c * c == b;
  }

  /** The integer part of a real bracketed by `q` and `q + 1` is `q`. */
  lemma FloorBetween(x: real, q: nat)
    requires (q as real) <= x < ((q + 1) as real)
    ensures x.Floor == q
  {
  }
}
