// Powers of two, logarithms and rounding (src/misc.c).
module Arith {

  function Pow2(k: nat): (p: nat)
    ensures p >= 1 && p > k
  {
    if k == 0 then 1 else 2 * Pow2(k - 1)
  }

  lemma Pow2Adds(a: nat, b: nat)
    ensures Pow2(a + b) == Pow2(a) * Pow2(b)
  {
    if b > 0 {
      Pow2Adds(a, b - 1);
      Twice(Pow2(a), Pow2(b - 1));
    }
  }

  lemma Twice(x: int, y: int)
    ensures 2 * (x * y) == x * (2 * y)
  {
  }

  lemma Pow2Grows(a: nat, b: nat)
    requires a <= b
    ensures Pow2(a) <= Pow2(b)
    ensures a < b ==> 2 * Pow2(a) <= Pow2(b)
  {
    if a < b {
      Pow2Grows(a, b - 1);
    }
  }

  // bsr: the position of the highest one bit.
  function Log2(v: nat): (k: nat)
    requires v >= 1
    ensures Pow2(k) <= v < 2 * Pow2(k)
  {
    if v == 1 then 0 else Log2(v / 2) + 1
  }

  lemma Log2Unique(v: nat, k: nat)
    requires Pow2(k) <= v < 2 * Pow2(k)
    ensures v >= 1 && Log2(v) == k
  {
    var j := Log2(v);
    if j < k {
      Pow2Grows(j, k);
    } else if k < j {
      Pow2Grows(k, j);
    }
  }

  lemma OneMore(i: int, p: int)
    ensures i * p == (i - 1) * p + p
  {
  }

  lemma MulMono(a: nat, b: nat, p: nat)
    requires a <= b
    ensures a * p <= b * p
  {
    assert (b - a) * p >= 0;
    assert b * p == a * p + (b - a) * p;
  }

  lemma ModUnique(x: int, q: int, r: nat, p: nat)
    requires x == q * p + r && r < p
    ensures x / p == q && x % p == r
  {
    var k, t := x / p, x % p;
    assert x == k * p + t;
    if k < q {
      MulStep(k, q, p);
    } else if q < k {
      MulStep(q, k, p);
    }
  }

  lemma MulStep(a: int, b: int, p: nat)
    requires a < b
    ensures a * p + p <= b * p
  {
    var d: nat := b - a - 1;
    assert d * p >= 0;
    assert b * p == a * p + p + d * p;
  }

  lemma Distribute(n: int, a: int, b: int)
    ensures n * (a + b) == n * a + n * b
  {
  }

  // The product as a sum of n terms.
  function Times(n: nat, p: nat): nat {
    if n == 0 then 0 else Times(n - 1, p) + p
  }

  lemma {:induction false} TimesIs(n: nat, p: nat)
    ensures Times(n, p) == n * p
  {
    if n > 0 {
      TimesIs(n - 1, p);
    }
  }

  lemma {:induction false} TimesGrows(a: nat, b: nat, p: nat)
    requires a <= b
    ensures Times(a, p) <= Times(b, p) && (a < b ==> Times(a, p) + p <= Times(b, p))
    decreases b
  {
    if a < b {
      TimesGrows(a, b - 1, p);
    }
  }

  // Powers of two are ordered as their exponents are.
  lemma Powers(a: nat, b: nat)
    ensures a < b <==> Pow2(a) < Pow2(b)
  {
    if a < b { Pow2Grows(a, b); } else { Pow2Grows(b, a); }
  }

  // round_up_2power
  function RoundUp2Power(v: nat): (r: nat)
    requires v >= 2
    ensures v <= r < 2 * v
  {
    Pow2(Log2(v - 1) + 1)
  }

  // round_up_2power finds the least power of two that is not smaller.
  lemma LeastOrder(v: nat)
    requires v >= 2
    ensures var j := Log2(RoundUp2Power(v));
      && RoundUp2Power(v) == Pow2(j)
      && forall k: nat :: k < j <==> Pow2(k) < v
  {
    var j := Log2(v - 1) + 1;
    Log2Unique(Pow2(j), j);
    forall k: nat
      ensures k < j <==> Pow2(k) < v
    {
      if k < j { Pow2Grows(k, j - 1); } else { Pow2Grows(j, k); }
    }
  }

  // is_2power
  function Is2Power(v: nat): bool
    requires v >= 2
  {
    RoundUp2Power(v) == Pow2(Log2(v))
  }

  lemma Is2PowerIffPower(v: nat)
    requires v >= 2
    ensures Is2Power(v) <==> exists k :: v == Pow2(k)
  {
    LeastOrder(v);
    var j := Log2(RoundUp2Power(v));
    Powers(j, Log2(v));
    if k :| v == Pow2(k) {
      assert k < j <==> Pow2(k) < v;
      Powers(k, j);
      Log2Unique(v, k);
    }
  }
}
