// How src/pgpool.c lays out descriptors and pages.
module PgLayout {
  import opened Arith
  import opened Align

  const NODE_SIZE: nat := 64

  // The number of descriptors that fit between cur and end together with their pages.
  function Count(cur: nat, end: nat, pgSize: nat): (n: nat)
    requires cur <= end
    ensures n * pgSize + n * NODE_SIZE <= end - cur
  {
    CountFits(end - cur, pgSize);
    (end - cur) / (pgSize + NODE_SIZE)
  }

  lemma CountFits(t: nat, p: nat)
    ensures var n := t / (p + NODE_SIZE); n >= 0 && n * p + n * NODE_SIZE <= t
  {
    var n := t / (p + NODE_SIZE);
    Distribute(n, p, NODE_SIZE);
  }

  // The bytes of all pages but the largest segment that is held back.
  function Managed(n: nat, max: nat, pgSize: nat): (b: int)
    ensures b == n * pgSize - max * pgSize
  {
    Less(n, max, pgSize);
    (n - max) * pgSize
  }

  lemma Less(n: int, m: int, p: int)
    ensures (n - m) * p == n * p - m * p
  {
  }

  // move_ptr_align64
  function Align64(x: int): int {
    (x + 63) / 64 * 64
  }

  // Where the pages start: behind the descriptors, rounded up twice.
  function ChunkAt(cur: nat, n: nat, k: nat): int {
    RoundUp(Align64(cur + n * NODE_SIZE), k)
  }

  lemma MultipleOf64(i: int)
    ensures Aligned(i * 64, 6)
  {
    assert Pow2(6) == 64 by { assert Pow2(2) == 4; assert Pow2(4) == 16; }
    MultipleAligned(i, 6);
  }

  // Rounding up to 64 first changes nothing when pages are no smaller.
  lemma RoundTwice(x: int, k: nat)
    requires k >= 6
    ensures RoundUp(Align64(x), k) == RoundUp(x, k)
  {
    var y, z := Align64(x), RoundUp(x, k);
    MultipleOf64((x + 63) / 64);
    RoundUpIsLeast(x, 0, k);
    AlignedDown(z, 6, k);
    assert Pow2(6) == 64 by { assert Pow2(2) == 4; assert Pow2(4) == 16; }
    if z < y { AlignedGap(z, y, 6); }
    RoundUpIsLeast(y, z, k);
    RoundUpIsLeast(x, RoundUp(y, k), k);
  }

  // Whether the managed pages end where the memory does, or before.
  predicate Fits(cur: nat, end: nat, k: nat, max: nat)
    requires cur <= end
  {
    var n := Count(cur, end, Pow2(k));
    ChunkAt(cur, n, k) + Managed(n, max, Pow2(k)) <= end
  }

  // The bytes by which the descriptors start off a multiple of 64 are no more than
  // the pages held back and the remainder of the division.
  predicate HasSlack(cur: nat, end: nat, k: nat, max: nat)
    requires cur <= end
  {
    var n := Count(cur, end, Pow2(k));
    Align64(cur) - cur <= max * Pow2(k) + (end - cur) - n * Pow2(k) - n * NODE_SIZE
  }

  // Small pages: both roundings together only move the descriptors' start up.
  lemma SmallPages(cur: nat, n: nat, k: nat)
    requires k <= 6
    ensures ChunkAt(cur, n, k) == Align64(cur) + n * NODE_SIZE
  {
    var y := Align64(cur + n * NODE_SIZE);
    assert (cur + 64 * n + 63) / 64 == (cur + 63) / 64 + n;
    assert y == Align64(cur) + n * NODE_SIZE;
    MultipleOf64((cur + n * NODE_SIZE + 63) / 64);
    AlignedDown(y, k, 6);
    RoundUpIsLeast(y, y, k);
  }

  // Pages at least as large as a descriptor always fit: the pages held back make
  // up for the rounding.
  lemma LargePages(cur: nat, end: nat, k: nat, max: nat)
    requires cur <= end && k >= 6 && max >= 1 && Count(cur, end, Pow2(k)) > max
    ensures Fits(cur, end, k, max)
  {
    var n, p := Count(cur, end, Pow2(k)), Pow2(k);
    RoundTwice(cur + n * NODE_SIZE, k);
    RoundUpIsLeast(cur + n * NODE_SIZE, 0, k);
    MulMono(1, max, p);
  }

  lemma SmallFits(cur: nat, end: nat, k: nat, max: nat)
    requires cur <= end && k <= 6 && Count(cur, end, Pow2(k)) > max
    ensures Fits(cur, end, k, max) <==> HasSlack(cur, end, k, max)
  {
    var n, p := Count(cur, end, Pow2(k)), Pow2(k);
    SmallPages(cur, n, k);
  }

  // The pages fit exactly when a page is no smaller than a descriptor or the slack
  // suffices.
  lemma PagesFitExactly(cur: nat, end: nat, k: nat, max: nat)
    requires cur <= end && max >= 1 && Count(cur, end, Pow2(k)) > max
    ensures Fits(cur, end, k, max) <==> k >= 6 || HasSlack(cur, end, k, max)
  {
    if k >= 6 {
      LargePages(cur, end, k, max);
    } else {
      SmallFits(cur, end, k, max);
    }
  }

  lemma StartAligned(y: nat, k: nat)
    ensures y <= RoundUp(y, k) && RoundUp(y, k) % Pow2(k) == 0
  {
    RoundUpIsLeast(y, 0, k);
    AlignedMod(RoundUp(y, k), k);
  }

  // As many descriptors of 64 bytes as fit together with a page each.
  lemma CountIsMost(cur: nat, end: nat, pgSize: nat)
    requires cur <= end
    ensures var n := Count(cur, end, pgSize); n * (pgSize + 64) <= end - cur < (n + 1) * (pgSize + 64)
  {
    var n, p := Count(cur, end, pgSize), pgSize + NODE_SIZE;
    OneMore(n + 1, p);
    assert n == (end - cur) / p;
  }

  // The pages never overlap the descriptors; they start at the first page boundary behind
  // the first multiple of 64 behind these.
  lemma PagesBehind(cur: nat, n: nat, k: nat, y: int)
    ensures cur + n * 64 <= ChunkAt(cur, n, k) < cur + n * 64 + 63 + Pow2(k) && ChunkAt(cur, n, k) % Pow2(k) == 0
    ensures y % 64 == 0 && cur + n * 64 <= y && Aligned(y, k) ==> ChunkAt(cur, n, k) <= y
  {
    MulMono(0, n, NODE_SIZE);
    Align64IsLeast(cur + n * NODE_SIZE, y);
    RoundedPages(Align64(cur + n * NODE_SIZE), y, k);
  }

  lemma Align64IsLeast(x: int, y: int)
    ensures Align64(x) % 64 == 0 && x <= Align64(x) < x + 64
    ensures y % 64 == 0 && x <= y ==> Align64(x) <= y
  {
  }

  lemma RoundedPages(x: nat, y: int, k: nat)
    ensures x <= RoundUp(x, k) < x + Pow2(k) && RoundUp(x, k) % Pow2(k) == 0
    ensures x <= y && Aligned(y, k) ==> RoundUp(x, k) <= y
  {
    StartAligned(x, k);
    RoundUpIsLeast(x, y, k);
  }

  // --- From the address of the pool ---------------------------------------------------------

  const IMPL_SIZE: nat := 152
  const LIST_HEAD_SIZE: nat := 40

  // Where the descriptors start, behind the pool itself and its list heads.
  function DescriptorsAt(addr: nat, max: nat): int
    requires max >= 1
  {
    Align64(addr + IMPL_SIZE) + LIST_HEAD_SIZE * (Log2(max) + 1)
  }

  // 364 bytes at address 4096, pages of two bytes, one page at most: the page
  // that is managed lies behind the end.
  lemma SmallPagesOverrun()
    ensures DescriptorsAt(4096, 1) == 4328 && DescriptorsAt(4136, 1) == 4328 && DescriptorsAt(4137, 1) == 4392
    ensures Mask(4096 + 364, 1) == 4460
    ensures Count(4328, 4460, 2) == 2 && ChunkAt(4328, 2, 1) == 4480 && !Fits(4328, 4460, 1, 1)
  {
    SmallPages(4328, 2, 1);
  }

  // A chunk address so found is a multiple of the page size.
  lemma {:induction false} AlignedMod(x: nat, k: nat)
    requires Aligned(x, k)
    ensures x % Pow2(k) == 0
  {
    if k > 0 {
      AlignedMod(x / 2, k - 1);
      DoubleMod(x / 2, Pow2(k - 1));
    }
  }

  lemma DoubleMod(y: nat, p: nat)
    requires p > 0 && y % p == 0
    ensures (2 * y) % (2 * p) == 0
  {
    var q := y / p;
    Twice(q, p);
    ModUnique(2 * y, q, 0, 2 * p);
  }
}
