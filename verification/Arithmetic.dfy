/** Facts about products, quotients and remainders that the proofs share. */
module Arithmetic {

  /** One more than the largest number of 64 bits. */
  const WORD64 := 0x1_0000_0000_0000_0000

  /** A product of naturals, named so that proofs about its users need no product. */
  function Times(a: nat, b: nat): nat {
    a * b
  }

  lemma ProductAtLeast(k: int, d: int)
    requires k >= 1 && d >= 0
    ensures k * d >= d
  {
    assert k * d == (k - 1) * d + d;
    assert (k - 1) * d >= 0;
  }

  lemma MultipleWithin(k: int, d: int)
    requires -d < k * d < d
    ensures k == 0
  {
    if k >= 1 {
      ProductAtLeast(k, d);
    } else if k <= -1 {
      ProductAtLeast(-k, d);
    }
  }

  /** A quotient and a remainder below the divisor are the quotient and the remainder. */
  lemma DivModUnique(x: int, d: int, q: int, r: int)
    requires d > 0 && 0 <= r < d
    requires x == q * d + r
    ensures x / d == q && x % d == r
  {
    var q', r' := x / d, x % d;
    assert x == d * q' + r';
    assert (q' - q) * d == d * q' - q * d;
    MultipleWithin(q' - q, d);
  }

  lemma Quotient(a: nat, d: nat)
    requires d > 0
    ensures 0 <= a / d <= a && 0 <= a % d < d
    ensures a == (a / d) * d + a % d
    ensures d >= 2 && a > 0 ==> a / d < a
  {
    var q := a / d;
    assert a == d * q + a % d;
    assert d * q == q * d;
    if q < 0 {
      ProductAtLeast(-q, d);
      assert false;
    }
    if q > 0 {
      ProductAtLeast(d, q);
      if d >= 2 {
        ProductAtLeast(d - 1, q);
        assert d * q == (d - 1) * q + q;
      }
    }
  }

  function Pow2(n: nat): (p: nat)
    ensures p > 0
  {
    if n == 0 then 1 else 2 * Pow2(n - 1)
  }

  lemma TwiceProduct(x: nat, y: nat)
    ensures 2 * (x * y) == (2 * x) * y
  {
  }

  lemma {:induction false} Pow2Adds(a: nat, b: nat)
    ensures Pow2(a + b) == Pow2(a) * Pow2(b)
  {
    if a > 0 {
      Pow2Adds(a - 1, b);
      TwiceProduct(Pow2(a - 1), Pow2(b));
      assert Pow2(a + b) == 2 * Pow2(a - 1 + b);
    }
  }

  function Power256(width: nat): nat {
    if width == 0 then 1 else 256 * Power256(width - 1)
  }
}
