/** Small facts about multiplication and division used by the index
    arithmetic of the pipeline. */
module Arith {

  lemma {:induction false} MulMonotone(a: int, b: int, k: nat)
    requires a <= b
    ensures a * k <= b * k && k * a <= k * b
  {}

  lemma {:induction false} MulSucc(a: int, k: int)
    ensures (a + 1) * k == a * k + k
  {}

  /** Where block `c` starts when blocks of `size` cells are laid end to
      end from 0. Defined by addition, so that proofs about rows and blocks
      stay linear; `BlockStartProduct` relates it to `c * size`. */
  function BlockStart(c: nat, size: nat): nat {
    if c == 0 then 0 else BlockStart(c - 1, size) + size
  }

  /** Block `c` starts at `c * size`. */
  lemma {:induction false} BlockStartProduct(c: nat, size: nat)
    ensures BlockStart(c, size) == c * size
  {
    if c > 0 {
      BlockStartProduct(c - 1, size);
      MulSucc(c - 1, size);
    }
  }

  /** Block `c` ends at or before the start of any later block `k`. */
  lemma {:induction false} BlockStartBefore(c: nat, k: nat, size: nat)
    requires c < k
    ensures BlockStart(c, size) + size <= BlockStart(k, size)
    decreases k
  {
    if c < k - 1 {
      BlockStartBefore(c, k - 1, size);
    }
  }

  /** Euclidean division has one quotient and remainder. */
  lemma {:induction false} DivUnique(n: int, d: int, q: int, r: int)
    requires d > 0 && 0 <= r < d && n == q * d + r
    ensures n / d == q && n % d == r
  {
    var q', r' := n / d, n % d;
    assert n == q' * d + r';
    if q' > q {
      MulMonotone(q + 1, q', d);
    } else if q' < q {
      MulMonotone(q' + 1, q, d);
    }
  }

  /** Taking one block away takes one from the number of whole blocks. */
  lemma {:induction false} DivSub(n: nat, step: nat)
    requires step > 0 && n >= step
    ensures (n - step) / step == n / step - 1
  {
    var q, r := n / step, n % step;
    assert n == q * step + r;
    MulSucc(q - 1, step);
    DivUnique(n - step, step, q - 1, r);
  }

  /** Fewer cells than one block make no whole block. */
  lemma {:induction false} DivSmall(n: nat, step: nat)
    requires step > 0 && n < step
    ensures n / step == 0
  {
    DivUnique(n, step, 0, n);
  }
}
