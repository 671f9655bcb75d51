/** Machine words as numbers, bit by bit: or, shifts and masks as recursive functions, their
    meaning as quotients and remainders, and fields that share no bit. */
module Bits {
  import opened Arithmetic

  /** Bitwise or. */
  function Or(a: nat, b: nat): nat
    decreases a + b
  {
    if a == 0 then b else if b == 0 then a
    else (if a % 2 == 1 || b % 2 == 1 then 1 else 0) + 2 * Or(a / 2, b / 2)
  }

  lemma {:induction false} OrHalves(a: nat, b: nat)
    ensures Or(a, b) / 2 == Or(a / 2, b / 2)
    ensures Or(a, b) % 2 == if a % 2 == 1 || b % 2 == 1 then 1 else 0
  {
  }

  lemma {:induction false} OrZero(a: nat)
    ensures Or(a, 0) == a && Or(0, a) == a
  {
  }

  /** `a` shifted right by `n`. */
  function Shr(a: nat, n: nat): nat {
    if n == 0 then a else Shr(a / 2, n - 1)
  }

  /** The low `n` bits of `a`. */
  function Low(a: nat, n: nat): nat {
    if n == 0 then 0 else a % 2 + 2 * Low(a / 2, n - 1)
  }

  lemma {:induction false} OrShr(a: nat, b: nat, n: nat)
    ensures Shr(Or(a, b), n) == Or(Shr(a, n), Shr(b, n))
  {
    if n > 0 {
      OrHalves(a, b);
      OrShr(a / 2, b / 2, n - 1);
    }
  }

  lemma {:induction false} OrLow(a: nat, b: nat, n: nat)
    ensures Low(Or(a, b), n) == Or(Low(a, n), Low(b, n))
  {
    if n > 0 {
      OrHalves(a, b);
      OrLow(a / 2, b / 2, n - 1);
      OrHalves(Low(a, n), Low(b, n));
    }
  }

  function Pow2(n: nat): (r: nat)
    ensures 0 < r
  {
    if n == 0 then 1 else 2 * Pow2(n - 1)
  }

  lemma {:induction false} ShrOfShifted(x: nat, n: nat)
    ensures Shr(x * Pow2(n), n) == x
  {
    if n > 0 {
      assert x * Pow2(n) == 2 * (x * Pow2(n - 1));
      ShrOfShifted(x, n - 1);
    }
  }

  lemma {:induction false} LowOfSmall(x: nat, n: nat)
    requires x < Pow2(n)
    ensures Low(x, n) == x
  {
    if n > 0 {
      LowOfSmall(x / 2, n - 1);
    }
  }

  lemma {:induction false} LowIsMod(x: nat, n: nat)
    ensures Low(x, n) == x % Pow2(n)
  {
    if n > 0 {
      LowIsMod(x / 2, n - 1);
      ModDouble(x, Pow2(n - 1));
    }
  }

  lemma {:induction false} ModDouble(x: nat, p: nat)
    requires 0 < p
    ensures x % (2 * p) == x % 2 + 2 * (x / 2 % p)
  {
    var q, r := x / 2 / p, x / 2 % p;
    assert x / 2 == q * p + r;
    assert x == q * (2 * p) + (2 * r + x % 2);
    QuotientOf(x, 2 * p, q, 2 * r + x % 2);
  }

  lemma {:induction false} ShrIsDiv(x: nat, n: nat)
    ensures Shr(x, n) == x / Pow2(n)
  {
    if n > 0 {
      ShrIsDiv(x / 2, n - 1);
      DivDouble(x, Pow2(n - 1));
    }
  }

  lemma {:induction false} DivDouble(x: nat, p: nat)
    requires 0 < p
    ensures x / (2 * p) == x / 2 / p
  {
    var q, r := x / 2 / p, x / 2 % p;
    assert x / 2 == q * p + r;
    QuotientOf(x, 2 * p, q, 2 * r + x % 2);
  }

  lemma {:induction false} PowAdd(m: nat, n: nat)
    ensures Pow2(m + n) == Pow2(m) * Pow2(n)
  {
    if m > 0 {
      PowAdd(m - 1, n);
      assert Pow2(m) * Pow2(n) == 2 * (Pow2(m - 1) * Pow2(n));
    }
  }

  /** A field shifted to `at` is cut off by a shift beyond it. */
  lemma {:induction false} ShrBeyond(v: nat, size: nat, at: nat, n: nat)
    requires v < Pow2(size) && at + size <= n
    ensures Shr(v * Pow2(at), n) == 0
  {
    if at > 0 {
      assert v * Pow2(at) == 2 * (v * Pow2(at - 1));
      ShrBeyond(v, size, at - 1, n - 1);
    } else {
      ShrSmall(v, size, n);
    }
  }

  lemma {:induction false} ShrSmall(v: nat, size: nat, n: nat)
    requires v < Pow2(size) && size <= n
    ensures Shr(v, n) == 0
  {
    if n > 0 {
      ShrSmall(v / 2, if size == 0 then 0 else size - 1, n - 1);
    }
  }

  /** A field shifted to `at` has no bit in the `size` bits from `n` on, when those end
      at or before `at`. */
  lemma {:induction false} LowBelow(v: nat, at: nat, n: nat, size: nat)
    requires n + size <= at
    ensures Low(Shr(v * Pow2(at), n), size) == 0
  {
    PowAdd(at - n, n);
    assert v * Pow2(at) == (v * Pow2(at - n)) * Pow2(n);
    ShrOfShifted(v * Pow2(at - n), n);
    LowOfMultiple(v, at - n, size);
  }

  lemma {:induction false} LowOfMultiple(v: nat, k: nat, size: nat)
    requires size <= k
    ensures Low(v * Pow2(k), size) == 0
  {
    if size > 0 {
      assert v * Pow2(k) == 2 * (v * Pow2(k - 1));
      LowOfMultiple(v, k - 1, size - 1);
    }
  }

  lemma {:induction false} LowBound(x: nat, n: nat)
    ensures Low(x, n) < Pow2(n)
  {
    if n > 0 {
      LowBound(x / 2, n - 1);
    }
  }
}
