/**
 The availability percentage printed for a domain: Python's `round` applied to
 `(ups / reqs) * 100`, computed here on exact rationals. `round` returns the
 nearest integer and breaks an exact tie towards the even neighbour.
 */
module Rounding {

  /** The distance between two integers. */
  function Dist(a: int, b: int): nat
  {
    if a >= b then a - b else b - a
  }

  /**
   `r` is a correctly rounded value of the fraction `n / d`: it is within one
   half of it, and when it is exactly one half away it is even.
   */
  predicate RoundsHalfEven(n: nat, d: nat, r: nat)
    requires d > 0
  {
    && 2 * Dist(r * d, n) <= d
    && (2 * Dist(r * d, n) == d ==> r % 2 == 0)
  }

  /** Python's `round` of the rational number `n / d`, ties to even. */
  function RoundHalfEven(n: nat, d: nat): (r: nat)
    requires d > 0
    ensures RoundsHalfEven(n, d, r)
  {
    var q, rem := n / d, n % d;
    assert n == q * d + rem;
    if 2 * rem < d then
      assert q * d + rem == n;
      q
    else if 2 * rem > d then
      assert (q + 1) * d == q * d + d;
      q + 1
    else if q % 2 == 0 then
      q
    else
      assert (q + 1) * d == q * d + d;
      q + 1
  }

  lemma MulLeftMono(a: nat, b: nat, d: nat)
    requires a <= b
    ensures a * d <= b * d
  {
  }

  /** At most one integer rounds `n / d` half to even. */
  lemma RoundingIsUnique(n: nat, d: nat, a: nat, b: nat)
    requires d > 0
    requires RoundsHalfEven(n, d, a) && RoundsHalfEven(n, d, b)
    ensures a == b
  {
    if a > b {
      RoundingApart(n, d, a, b);
    } else if b > a {
      RoundingApart(n, d, b, a);
    }
  }

  /** Two distinct candidates cannot both round `n / d`. */
  lemma RoundingApart(n: nat, d: nat, a: nat, b: nat)
    requires d > 0 && a > b
    requires RoundsHalfEven(n, d, b)
    ensures !RoundsHalfEven(n, d, a)
  {
    if a == b + 1 {
      assert a * d == b * d + d;
    } else {
      MulLeftMono(b + 2, a, d);
      assert (b + 2) * d == b * d + 2 * d;
    }
  }

  /** A fraction no larger than `k` does not round above `k`. */
  lemma RoundedAtMost(n: nat, d: nat, k: nat, r: nat)
    requires d > 0 && n <= k * d
    requires RoundsHalfEven(n, d, r)
    ensures r <= k
  {
    if r > k {
      MulLeftMono(k + 1, r, d);
    }
  }

  /** So `RoundHalfEven` is the one integer that rounds `n / d` half to even. */
  lemma RoundHalfEvenUnique(n: nat, d: nat, m: nat)
    requires d > 0
    requires RoundsHalfEven(n, d, m)
    ensures m == RoundHalfEven(n, d)
  {
    RoundingIsUnique(n, d, m, RoundHalfEven(n, d));
  }

  /** Availability reported for a domain with `ups` successes out of `total` attempts. */
  function Percent(ups: nat, total: nat): (r: nat)
    requires total > 0
    ensures RoundsHalfEven(100 * ups, total, r)
  {
    RoundHalfEven(100 * ups, total)
  }

  /** A success count no larger than the attempt count gives a percentage in [0, 100]. */
  lemma PercentBounds(ups: nat, total: nat)
    requires 0 < total && ups <= total
    ensures Percent(ups, total) <= 100
    ensures ups == total ==> Percent(ups, total) == 100
    ensures ups == 0 ==> Percent(ups, total) == 0
  {
    RoundedAtMost(100 * ups, total, 100, Percent(ups, total));
    if ups == total {
      assert RoundsHalfEven(100 * ups, total, 100);
      RoundHalfEvenUnique(100 * ups, total, 100);
    }
    if ups == 0 {
      assert RoundsHalfEven(0, total, 0);
      RoundHalfEvenUnique(0, total, 0);
    }
  }

  /** The worked values: two ups of three attempts give 67, one of two gives 50. */
  lemma PercentExamples()
    ensures Percent(2, 3) == 67
    ensures Percent(1, 2) == 50
    ensures Percent(1, 200) == 0 && Percent(3, 200) == 2
  {
  }
}
