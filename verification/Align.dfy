// Alignment and masking by powers of two.
module Align {
  import opened Arith

  // x & -(1 << k): the low k bits cleared.
  function Mask(x: int, k: nat): int
    decreases k
  {
    if k == 0 then x else 2 * Mask(x / 2, k - 1)
  }

  predicate Aligned(x: int, k: nat)
    decreases k
  {
    k == 0 || (x % 2 == 0 && Aligned(x / 2, k - 1))
  }

  lemma {:induction false} MaskIsFloor(x: int, k: nat)
    ensures Aligned(Mask(x, k), k) && Mask(x, k) <= x < Mask(x, k) + Pow2(k)
    decreases k
  {
    if k > 0 {
      MaskIsFloor(x / 2, k - 1);
      assert Mask(x, k) / 2 == Mask(x / 2, k - 1);
    }
  }

  // The multiples of a power of two.
  lemma {:induction false} AlignedIs(x: int, k: nat)
    ensures Aligned(x, k) <==> x % Pow2(k) == 0
    decreases k
  {
    if k > 0 {
      AlignedIs(x / 2, k - 1);
      HalfMod(x, Pow2(k - 1));
    }
  }

  lemma HalfMod(x: int, p: nat)
    requires p > 0
    ensures x % 2 == 0 && (x / 2) % p == 0 <==> x % (2 * p) == 0
  {
    if x % (2 * p) == 0 {
      var q := x / (2 * p);
      Twice(p, q);
      ModUnique(x / 2, q, 0, p);
    }
    if x % 2 == 0 && (x / 2) % p == 0 {
      var q := (x / 2) / p;
      Twice(q, p);
      ModUnique(x, q, 0, 2 * p);
    }
  }

  lemma {:induction false} AlignedSum(a: int, b: int, k: nat)
    requires Aligned(a, k) && Aligned(b, k)
    ensures Aligned(a + b, k) && Aligned(a - b, k)
    decreases k
  {
    if k > 0 {
      AlignedSum(a / 2, b / 2, k - 1);
      assert (a + b) / 2 == a / 2 + b / 2 && (a - b) / 2 == a / 2 - b / 2;
    }
  }

  lemma {:induction false} AlignedDown(x: int, j: nat, k: nat)
    requires j <= k && Aligned(x, k)
    ensures Aligned(x, j)
    decreases k
  {
    if j > 0 {
      AlignedDown(x / 2, j - 1, k - 1);
    }
  }

  lemma {:induction false} Pow2Aligned(j: nat, k: nat)
    ensures Aligned(Pow2(j), k) <==> k <= j
  {
    if j > 0 && k > 0 {
      Pow2Aligned(j - 1, k - 1);
    } else if k > 0 {
      assert Pow2(j) == 1;
    }
  }

  lemma {:induction false} MultipleAligned(i: int, k: nat)
    ensures Aligned(i * Pow2(k), k)
    decreases k
  {
    if k > 0 {
      MultipleAligned(i, k - 1);
      Twice(i, Pow2(k - 1));
    }
  }

  // Two different multiples of 2^k are at least 2^k apart.
  lemma {:induction false} AlignedGap(a: int, b: int, k: nat)
    requires Aligned(a, k) && Aligned(b, k) && a < b
    ensures a + Pow2(k) <= b
    decreases k
  {
    if k > 0 {
      AlignedGap(a / 2, b / 2, k - 1);
    }
  }

  // Every multiple of 2^k is an even one or comes right after one.
  lemma {:induction false} Parity(x: int, k: nat)
    requires Aligned(x, k)
    ensures Aligned(x, k + 1) <==> !Aligned(x - Pow2(k), k + 1)
    ensures Aligned(x, k + 1) <==> !Aligned(x + Pow2(k), k + 1)
    decreases k
  {
    if k == 0 {
      assert Aligned(x / 2, 0) && Aligned((x - 1) / 2, 0) && Aligned((x + 1) / 2, 0);
    } else {
      Parity(x / 2, k - 1);
      assert (x - Pow2(k)) / 2 == x / 2 - Pow2(k - 1) && (x + Pow2(k)) / 2 == x / 2 + Pow2(k - 1);
    }
  }

  lemma MaskOf(x: int, f: int, k: nat)
    requires Aligned(f, k) && f <= x < f + Pow2(k)
    ensures Mask(x, k) == f
  {
    MaskIsFloor(x, k);
    if f < Mask(x, k) {
      AlignedGap(f, Mask(x, k), k);
    } else if Mask(x, k) < f {
      AlignedGap(Mask(x, k), f, k);
    }
  }

  // The buddy test: x and the next block of the same size share the masked
  // offset exactly when x is the left one.
  lemma BuddyMask(x: int, k: nat)
    requires Aligned(x, k)
    ensures Mask(x, k + 1) == Mask(x + Pow2(k), k + 1) <==> Aligned(x, k + 1)
  {
    Parity(x, k);
    if Aligned(x, k + 1) {
      MaskOf(x, x, k + 1);
      MaskOf(x + Pow2(k), x, k + 1);
    } else {
      MaskOf(x + Pow2(k), x + Pow2(k), k + 1);
      MaskIsFloor(x, k + 1);
    }
  }

  // round_up for a boundary of 2^k
  function RoundUp(x: int, k: nat): int {
    Mask(x + Pow2(k) - 1, k)
  }

  // The least multiple that is not smaller.
  lemma RoundUpIsLeast(x: int, y: int, k: nat)
    ensures Aligned(RoundUp(x, k), k) && x <= RoundUp(x, k) < x + Pow2(k)
    ensures x <= y && Aligned(y, k) ==> RoundUp(x, k) <= y
  {
    MaskIsFloor(x + Pow2(k) - 1, k);
    if x <= y < RoundUp(x, k) && Aligned(y, k) {
      AlignedGap(y, RoundUp(x, k), k);
    }
  }
}
