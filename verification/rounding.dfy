/** JavaScript's `Math.round` applied to a quotient `s / c` of integers. */
module Rounding {
  import opened Arith

  /** `Math.round(s / c)` for a positive divisor: the integer nearest to
      `s / c`, with halves rounded towards positive infinity. The contract
      says `q - 1/2 <= s / c < q + 1/2`, multiplied through by `2 * c`. */
  function RoundHalfUp(s: int, c: int): (q: int)
    requires c > 0
    ensures 2 * c * q <= 2 * s + c < 2 * c * q + 2 * c
  {
    var d := 2 * c;
    var n := 2 * s + c;
    assert d * (n / d) + n % d == n;
    n / d
  }

  /** At most one integer lies within a half of `s / c`. */
  lemma {:induction false} RoundHalfUpUnique(s: int, c: int, q: int)
    requires c > 0
    requires 2 * c * q <= 2 * s + c < 2 * c * q + 2 * c
    ensures RoundHalfUp(s, c) == q
  {
    var p := RoundHalfUp(s, c);
    if p < q {
      MulMonotone(p + 1, q, 2 * c);
    } else if p > q {
      MulMonotone(q + 1, p, 2 * c);
    }
  }

  /** A mean of `c` copies of `v` rounds to `v`. */
  lemma {:induction false} RoundHalfUpExact(v: int, c: int)
    requires c > 0
    ensures RoundHalfUp(c * v, c) == v
  {
    RoundHalfUpUnique(c * v, c, v);
  }

  /** Rounding keeps a mean inside the range of the values averaged. */
  lemma {:induction false} RoundHalfUpWithin(s: int, c: int, lo: int, hi: int)
    requires c > 0
    requires c * lo <= s <= c * hi
    ensures lo <= RoundHalfUp(s, c) <= hi
  {
    var q := RoundHalfUp(s, c);
    if q > hi {
      MulMonotone(hi + 1, q, 2 * c);
    }
    if q < lo {
      MulMonotone(q + 1, lo, 2 * c);
    }
  }

  /** Halves go up, also for negative quotients: 2.5 becomes 3 and -2.5
      becomes -2, as `Math.round` does. */
  lemma {:induction false} RoundHalfUpHalves()
    ensures RoundHalfUp(5, 2) == 3
    ensures RoundHalfUp(-5, 2) == -2
    ensures RoundHalfUp(510, 4) == 128
  {}
}
