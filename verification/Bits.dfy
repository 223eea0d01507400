// Single bits of a machine word, as the slab bitmap of src/mmspace.c uses them.
module Bits {
  import opened Arith

  const WORD: nat := 64

  // b & (1UL << i) != 0
  predicate Bit(b: nat, i: nat)
    decreases i
  {
    if i == 0 then b % 2 == 1 else Bit(b / 2, i - 1)
  }

  // b | (1UL << i)
  function WithBit(b: nat, i: nat): (c: nat)
    decreases i
  {
    if i == 0 then 2 * (b / 2) + 1 else 2 * WithBit(b / 2, i - 1) + b % 2
  }

  // b & ~(1UL << i)
  function WithoutBit(b: nat, i: nat): (c: nat)
    ensures c <= b
    decreases i
  {
    if i == 0 then 2 * (b / 2) else 2 * WithoutBit(b / 2, i - 1) + b % 2
  }

  // ~b in a word of n bits
  function Complement(b: nat, n: nat): nat
    requires b < Pow2(n)
  {
    Pow2(n) - 1 - b
  }

  // bsf: the lowest bit that is set, or -1.
  function Bsf(v: nat): (k: int)
    ensures k >= -1
  {
    if v == 0 then -1 else if v % 2 == 1 then 0 else Bsf(v / 2) + 1
  }

  // How many of the lowest n bits are set.
  function Count(b: nat, n: nat): (k: nat)
    ensures k <= n
  {
    if n == 0 then 0 else Count(b, n - 1) + if Bit(b, n - 1) then 1 else 0
  }

  lemma {:induction false} BitIs(b: nat, i: nat)
    ensures Bit(b, i) <==> b / Pow2(i) % 2 == 1
    decreases i
  {
    if i > 0 {
      BitIs(b / 2, i - 1);
      HalfDiv(b, Pow2(i - 1));
    }
  }

  lemma HalfDiv(b: nat, p: nat)
    requires p > 0
    ensures b / (2 * p) == (b / 2) / p
  {
    var q, r := (b / 2) / p, (b / 2) % p;
    Twice(q, p);
    ModUnique(b, q, 2 * r + b % 2, 2 * p);
  }

  lemma {:induction false} WithBitAt(b: nat, i: nat, j: nat)
    ensures Bit(WithBit(b, i), j) <==> j == i || Bit(b, j)
    decreases i
  {
    if i > 0 && j > 0 {
      WithBitAt(b / 2, i - 1, j - 1);
      assert WithBit(b, i) / 2 == WithBit(b / 2, i - 1);
    } else if i == 0 && j > 0 {
      assert WithBit(b, 0) / 2 == b / 2;
    }
  }

  lemma {:induction false} WithoutBitAt(b: nat, i: nat, j: nat)
    ensures Bit(WithoutBit(b, i), j) <==> j != i && Bit(b, j)
    decreases i
  {
    if i > 0 && j > 0 {
      WithoutBitAt(b / 2, i - 1, j - 1);
      assert WithoutBit(b, i) / 2 == WithoutBit(b / 2, i - 1);
    } else if i == 0 && j > 0 {
      assert WithoutBit(b, 0) / 2 == b / 2;
    }
  }

  lemma Doubled(x: nat, r: nat, p: nat)
    requires x < p && r <= 1
    ensures 2 * x + r < 2 * p
  {
  }

  lemma {:induction false} WithBitFits(b: nat, i: nat, n: nat)
    requires b < Pow2(n) && i < n
    ensures WithBit(b, i) < Pow2(n)
    decreases i
  {
    var p := Pow2(n - 1);
    if i > 0 {
      WithBitFits(b / 2, i - 1, n - 1);
      Doubled(WithBit(b / 2, i - 1), b % 2, p);
    } else {
      Doubled(b / 2, 1, p);
    }
  }

  lemma {:induction false} ComplementAt(b: nat, n: nat, i: nat)
    requires b < Pow2(n)
    ensures Bit(Complement(b, n), i) <==> i < n && !Bit(b, i)
    decreases i
  {
    if n == 0 {
      ZeroBits(i);
    } else if i > 0 {
      ComplementAt(b / 2, n - 1, i - 1);
      assert Complement(b, n) / 2 == Complement(b / 2, n - 1);
    }
  }

  lemma {:induction false} ZeroBits(i: nat)
    ensures !Bit(0, i)
  {
    if i > 0 {
      ZeroBits(i - 1);
    }
  }

  lemma {:induction false} BsfFinds(v: nat, j: nat)
    ensures Bsf(v) == -1 <==> v == 0
    ensures Bsf(v) != -1 ==> Bit(v, Bsf(v)) && (j < Bsf(v) ==> !Bit(v, j))
    ensures Bsf(v) == -1 ==> !Bit(v, j)
    decreases v
  {
    if v == 0 {
      ZeroBits(j);
    } else if v % 2 == 0 {
      BsfFinds(v / 2, if j > 0 then j - 1 else 0);
    }
  }

  // Words that differ in one bit differ by one in the count.
  lemma {:induction false} CountSet(b: nat, c: nat, i: nat, n: nat)
    requires !Bit(b, i) && Bit(c, i) && forall j: nat :: j != i ==> (Bit(c, j) <==> Bit(b, j))
    ensures Count(c, n) == Count(b, n) + if i < n then 1 else 0
  {
    if n > 0 {
      CountSet(b, c, i, n - 1);
    }
  }

  lemma {:induction false} CountZero(n: nat)
    ensures Count(0, n) == 0
  {
    if n > 0 {
      CountZero(n - 1);
      ZeroBits(n - 1);
    }
  }

  ghost predicate AllSet(b: nat, n: nat) {
    forall i: nat :: i < n ==> Bit(b, i)
  }

  ghost predicate NoneSet(b: nat, n: nat) {
    forall i: nat :: i < n ==> !Bit(b, i)
  }

  // The count reaches n only when all n bits are set, and 0 when none is.
  lemma {:induction false} CountExtremes(b: nat, n: nat)
    ensures Count(b, n) == n <==> AllSet(b, n)
    ensures Count(b, n) == 0 <==> NoneSet(b, n)
  {
    if n > 0 {
      CountExtremes(b, n - 1);
      if Bit(b, n - 1) {
        assert AllSet(b, n) <==> AllSet(b, n - 1);
      } else {
        assert NoneSet(b, n) <==> NoneSet(b, n - 1);
      }
    }
  }

  lemma {:induction false} CountAbove(b: nat, n: nat, m: nat)
    requires n <= m && forall i: nat :: n <= i < m ==> !Bit(b, i)
    ensures Count(b, m) == Count(b, n)
  {
    if n < m {
      CountAbove(b, n, m - 1);
    }
  }
}
