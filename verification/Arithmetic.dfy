/** Facts about products and quotients that the solver does not find by itself, each stated
    for the terms a proof has in hand; and rounding to whole pages. */
module Arithmetic {
  lemma {:induction false} Distribute(a: int, b: int, k: int)
    ensures (a + b) * k == a * k + b * k
  {
  }

  lemma {:induction false} QuotientUnique(size: nat, q: int, r: nat, q': int, r': nat)
    requires 0 < size && r < size && r' < size && q * size + r == q' * size + r'
    ensures q == q' && r == r'
  {
    if q < q' {
      WholeStep(q, q', size);
    } else if q' < q {
      WholeStep(q', q, size);
    }
  }

  lemma {:induction false} WholeStep(a: int, b: int, k: nat)
    requires a < b
    ensures a * k + k <= b * k
  {
    Distribute(a, b - a, k);
    Distribute(b - a - 1, 1, k);
  }

  /** A quotient and a remainder that fit are the ones division computes. */
  lemma {:induction false} QuotientOf(x: nat, p: nat, q: nat, r: nat)
    requires r < p && x == q * p + r
    ensures x / p == q && x % p == r
  {
    QuotientUnique(p, x / p, x % p, q, r);
  }

  /** The next multiple of the page size. */
  function AlignUp(x: nat): (r: nat)
    ensures r % 4096 == 0 && x <= r < x + 4096
  {
    (x + 4095) / 4096 * 4096
  }
}
