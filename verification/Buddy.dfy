// The chunk of src/mmpool.c as a tiling: which blocks lie where, and what
// splitting, merging and freeing do to it.
module Buddy {
  import opened Arith
  import opened Align

  // A chunk of size bytes, cut into tops blocks of the highest order; the
  // smallest block is not smaller than its head and tail together.
  datatype Config = Config(minO: nat, maxO: nat, tops: nat, size: nat)
  {
    ghost predicate Ok() { 4 <= minO < maxO && size == Times(tops, Pow2(maxO)) }

    // Half of the number of blocks of the lowest order.
    ghost function Half(): nat
      requires Ok()
    {
      tops * Pow2(maxO - 1 - minO)
    }
  }

  datatype Tile = Tile(order: nat, used: bool)

  // Block offset -> block.
  type Tiling = map<int, Tile>

  ghost function End(m: Tiling, o: int): int
    requires o in m
  {
    o + Pow2(m[o].order)
  }

  ghost predicate TileAt(c: Config, m: Tiling, o: int) {
    && o in m && 0 <= o && c.minO <= m[o].order <= c.maxO
    && Aligned(o, m[o].order)
    && End(m, o) <= c.size && (End(m, o) == c.size || End(m, o) in m)
    && forall x :: o < x < End(m, o) ==> x !in m
  }

  // The blocks tile the chunk exactly.
  ghost predicate Tiles(c: Config, m: Tiling) {
    && (c.size > 0 ==> 0 in m)
    && forall o {:trigger TileAt(c, m, o)} :: o in m ==> TileAt(c, m, o)
  }

  // Two free halves of one block: what a free must not leave behind.
  ghost predicate FreePair(c: Config, m: Tiling, o: int) {
    && o in m && !m[o].used && m[o].order < c.maxO && Aligned(o, m[o].order + 1)
    && End(m, o) in m && m[End(m, o)] == m[o]
  }

  // No free pair, except one that block b is part of.
  ghost predicate CoalescedBut(c: Config, m: Tiling, b: int) {
    forall o {:trigger FreePair(c, m, o)} :: FreePair(c, m, o) ==> o == b || End(m, o) == b
  }

  ghost predicate Coalesced(c: Config, m: Tiling) {
    forall o {:trigger FreePair(c, m, o)} :: !FreePair(c, m, o)
  }

  ghost function FreeSet(m: Tiling): set<int> {
    set o | o in m && !m[o].used
  }

  ghost function Halved(m: Tiling, o: int): Tiling
    requires o in m && m[o].order > 0
  {
    var k := m[o].order - 1;
    m[o := Tile(k, false)][o + Pow2(k) := Tile(k, false)]
  }

  ghost function Joined(m: Tiling, o: int): Tiling
    requires o in m
  {
    (m - {End(m, o)})[o := Tile(m[o].order + 1, false)]
  }

  lemma Disjoint(c: Config, m: Tiling, x: int, y: int)
    requires Tiles(c, m) && x in m && y in m && x < y
    ensures End(m, x) <= y
  {
    assert TileAt(c, m, x);
  }

  lemma HalvedTiles(c: Config, m: Tiling, o: int)
    requires Tiles(c, m) && o in m && c.minO < m[o].order
    ensures Tiles(c, Halved(m, o))
    ensures o + Pow2(m[o].order - 1) !in m
  {
    var k := m[o].order - 1;
    var n, h := Halved(m, o), o + Pow2(k);
    assert TileAt(c, m, o);
    AlignedDown(o, k, k + 1);
    Pow2Aligned(k, k);
    AlignedSum(o, Pow2(k), k);
    forall x | x in n
      ensures TileAt(c, n, x)
    {
      if x != h {
        assert TileAt(c, m, x);
      }
    }
  }

  lemma JoinedTiles(c: Config, m: Tiling, o: int)
    requires Tiles(c, m) && FreePair(c, m, o)
    ensures Tiles(c, Joined(m, o))
  {
    var n, b := Joined(m, o), End(m, o);
    assert TileAt(c, m, o) && TileAt(c, m, b);
    forall x | x in n
      ensures TileAt(c, n, x)
    {
      assert TileAt(c, m, x);
    }
  }

  lemma MarkedTiles(c: Config, m: Tiling, o: int, used: bool)
    requires Tiles(c, m) && o in m
    ensures Tiles(c, m[o := Tile(m[o].order, used)])
  {
    var n := m[o := Tile(m[o].order, used)];
    forall x | x in n
      ensures TileAt(c, n, x)
    {
      assert TileAt(c, m, x);
    }
  }

  // --- Regions ---------------------------------------------------------------

  // Walking from block to block never steps over the end of an aligned region.
  lemma {:induction false} RegionEnds(c: Config, m: Tiling, o: int, k: nat, y: int)
    requires Tiles(c, m) && o in m && Aligned(o, k) && m[o].order <= k
    requires y in m && o <= y < o + Pow2(k) <= c.size
    ensures End(m, y) <= o + Pow2(k)
    ensures o + Pow2(k) == c.size || o + Pow2(k) in m
    decreases o + Pow2(k) - y
  {
    assert TileAt(c, m, y) && TileAt(c, m, o);
    var j := m[y].order;
    Pow2Aligned(k, k);
    AlignedSum(o, Pow2(k), k);
    if k <= j {
      AlignedDown(y, k, j);
      if o < y {
        AlignedGap(o, y, k);
      }
    } else {
      AlignedDown(o + Pow2(k), j, k);
      AlignedGap(y, o + Pow2(k), j);
    }
    if End(m, y) < o + Pow2(k) {
      RegionEnds(c, m, o, k, End(m, y));
    }
  }

  // A region that is not one block splits into two regions.
  lemma Halves(c: Config, m: Tiling, o: int, k: nat)
    requires Tiles(c, m) && o in m && Aligned(o, k) && m[o].order < k && o + Pow2(k) <= c.size
    ensures var h := o + Pow2(k - 1);
      && h in m && m[h].order <= k - 1 && Aligned(h, k - 1) && Aligned(o, k - 1) && !Aligned(h, k)
      && o + Pow2(k) == h + Pow2(k - 1)
  {
    var h := o + Pow2(k - 1);
    AlignedDown(o, k - 1, k);
    Pow2Aligned(k - 1, k - 1);
    AlignedSum(o, Pow2(k - 1), k - 1);
    assert TileAt(c, m, o);
    RegionEnds(c, m, o, k - 1, o);
    Parity(o, k - 1);
    assert TileAt(c, m, h);
    if m[h].order >= k {
      AlignedDown(h, k, m[h].order);
    }
  }

  lemma PairIsBut(c: Config, m: Tiling, b: int, o: int)
    requires CoalescedBut(c, m, b) && o in m && End(m, o) in m && b != o && b != End(m, o)
    ensures !FreePair(c, m, o)
  {
  }

  // An all-free region without free pairs is a single block.
  lemma {:induction false} AllFreeRegion(c: Config, m: Tiling, b: int, o: int, k: nat)
    requires Tiles(c, m) && CoalescedBut(c, m, b) && o in m && Aligned(o, k) && m[o].order <= k <= c.maxO
    requires o + Pow2(k) <= c.size && !(o <= b < o + Pow2(k))
    requires forall x :: x in m && o <= x < o + Pow2(k) ==> !m[x].used
    ensures m[o].order == k
    decreases k
  {
    if m[o].order < k {
      Halves(c, m, o, k);
      var h := o + Pow2(k - 1);
      AllFreeRegion(c, m, b, o, k - 1);
      AllFreeRegion(c, m, b, h, k - 1);
      PairIsBut(c, m, b, o);
    }
  }

  ghost function FreeIn(m: Tiling, lo: int, hi: int): set<int> {
    set o | o in m && !m[o].used && lo <= o < hi
  }

  ghost predicate Region(c: Config, m: Tiling, o: int, k: nat) {
    && Tiles(c, m) && o in m && Aligned(o, k) && m[o].order <= k <= c.maxO && o + Pow2(k) <= c.size
  }

  lemma OneBlockRegion(c: Config, m: Tiling, o: int, k: nat)
    requires Region(c, m, o, k) && m[o].order == k
    ensures |FreeIn(m, o, o + Pow2(k))| <= 1
  {
    assert TileAt(c, m, o);
    assert FreeIn(m, o, o + Pow2(k)) <= {o};
    SubsetSize(FreeIn(m, o, o + Pow2(k)), {o});
  }

  lemma TwoBlockRegion(c: Config, m: Tiling, o: int)
    requires Region(c, m, o, c.minO + 1) && m[o].order == c.minO && Coalesced(c, m)
    ensures |FreeIn(m, o, o + Pow2(c.minO + 1))| <= 1
  {
    var h := o + Pow2(c.minO);
    Halves(c, m, o, c.minO + 1);
    assert TileAt(c, m, o) && TileAt(c, m, h);
    var F := FreeIn(m, o, o + Pow2(c.minO + 1));
    assert F <= {o, h};
    assert !FreePair(c, m, o);
    if m[o].used { SubsetSize(F, {h}); } else { SubsetSize(F, {o}); }
  }

  // At most half of the smallest blocks of a region are ever free.
  lemma {:induction false} FreeBound(c: Config, m: Tiling, o: int, k: nat)
    requires Region(c, m, o, k) && Coalesced(c, m) && c.minO < k
    ensures |FreeIn(m, o, o + Pow2(k))| <= Pow2(k - 1 - c.minO)
    decreases k
  {
    if m[o].order == k {
      OneBlockRegion(c, m, o, k);
    } else if k - 1 == c.minO {
      assert TileAt(c, m, o);
      TwoBlockRegion(c, m, o);
    } else {
      Halves(c, m, o, k);
      var h := o + Pow2(k - 1);
      FreeBound(c, m, o, k - 1);
      FreeBound(c, m, h, k - 1);
      Adjoin(m, o, h, o + Pow2(k));
    }
  }

  lemma SubsetSize(a: set<int>, b: set<int>)
    requires a <= b
    ensures |a| <= |b|
  {
    assert a + (b - a) == b;
  }

  lemma UnionSize(a: set<int>, b: set<int>)
    requires a !! b
    ensures |a + b| == |a| + |b|
  {
  }

  // --- The whole chunk ---------------------------------------------------------

  // Every multiple of the highest block size is a block boundary.
  lemma {:induction false} TopStarts(c: Config, m: Tiling, i: nat)
    requires Tiles(c, m) && c.Ok() && i < c.tops
    ensures Region(c, m, Times(i, Pow2(c.maxO)), c.maxO)
  {
    var P := Pow2(c.maxO);
    var o := Times(i, P);
    TopAligned(c.maxO, i);
    TimesGrows(i, c.tops, P);
    if i > 0 {
      TopStarts(c, m, i - 1);
      RegionEnds(c, m, o - P, c.maxO, o - P);
    }
    assert TileAt(c, m, o);
  }

  lemma {:induction false} TopAligned(k: nat, i: nat)
    ensures Aligned(Times(i, Pow2(k)), k)
    decreases i
  {
    if i == 0 {
      ZeroAligned(k);
    } else {
      TopAligned(k, i - 1);
      Pow2Aligned(k, k);
      AlignedSum(Times(i - 1, Pow2(k)), Pow2(k), k);
    }
  }

  lemma {:induction false} ZeroAligned(k: nat)
    ensures Aligned(0, k)
  {
    if k > 0 {
      ZeroAligned(k - 1);
    }
  }

  lemma FreeTop(c: Config, m: Tiling, i: nat, lo: nat)
    requires Tiles(c, m) && Coalesced(c, m) && c.Ok() && i < c.tops && lo == Times(i, Pow2(c.maxO))
    ensures |FreeIn(m, 0, lo + Pow2(c.maxO))| <= |FreeIn(m, 0, lo)| + Pow2(c.maxO - 1 - c.minO)
  {
    TopStarts(c, m, i);
    FreeBound(c, m, lo, c.maxO);
    Adjoin(m, 0, lo, lo + Pow2(c.maxO));
  }

  lemma {:induction false} FreeBelow(c: Config, m: Tiling, i: nat, lo: nat)
    requires Tiles(c, m) && Coalesced(c, m) && c.Ok() && i <= c.tops && lo == Times(i, Pow2(c.maxO))
    ensures |FreeIn(m, 0, lo)| <= Times(i, Pow2(c.maxO - 1 - c.minO))
    decreases i
  {
    if i == 0 {
      assert FreeIn(m, 0, 0) == {};
    } else {
      FreeBelow(c, m, i - 1, lo - Pow2(c.maxO));
      FreeTop(c, m, i - 1, lo - Pow2(c.maxO));
    }
  }

  lemma Adjoin(m: Tiling, a: int, b: int, d: int)
    requires a <= b <= d
    ensures |FreeIn(m, a, d)| == |FreeIn(m, a, b)| + |FreeIn(m, b, d)|
  {
    UnionSize(FreeIn(m, a, b), FreeIn(m, b, d));
    assert FreeIn(m, a, d) == FreeIn(m, a, b) + FreeIn(m, b, d);
  }

  // At every moment without free pairs at most half of the smallest blocks are free.
  lemma FreeAtMostHalf(c: Config, m: Tiling)
    requires Tiles(c, m) && Coalesced(c, m) && c.Ok()
    ensures |FreeSet(m)| <= c.Half()
  {
    FreeBelow(c, m, c.tops, c.size);
    TimesIs(c.tops, Pow2(c.maxO - 1 - c.minO));
    WholeWalk(c, m);
  }

  // The bytes of the blocks of S that start below hi.
  ghost function FreeBytes(m: Tiling, S: set<int>, hi: int): nat
    decreases if hi < 0 then 0 else hi
  {
    if hi <= 0 then 0
    else FreeBytes(m, S, hi - 1) + if hi - 1 in S && hi - 1 in m then Pow2(m[hi - 1].order) else 0
  }

  lemma {:induction false} SumGrows(m: Tiling, S: set<int>, o: int, hi: int)
    requires o in m && o !in S && 0 <= o
    ensures FreeBytes(m, S + {o}, hi) == FreeBytes(m, S, hi) + if o < hi then Pow2(m[o].order) else 0
    decreases if hi < 0 then 0 else hi
  {
    if hi > 0 {
      SumGrows(m, S, o, hi - 1);
    }
  }

  lemma {:induction false} SumOfNone(m: Tiling, hi: int)
    ensures FreeBytes(m, {}, hi) == 0
    decreases if hi < 0 then 0 else hi
  {
    if hi > 0 {
      SumOfNone(m, hi - 1);
    }
  }

  // A walk through the chunk adds up the free blocks it steps over.
  lemma WalkStep(c: Config, m: Tiling, h: int)
    requires Tiles(c, m) && h in m
    ensures 0 <= h < End(m, h) <= c.size && (End(m, h) < c.size ==> End(m, h) in m)
    ensures FreeBytes(m, FreeIn(m, 0, End(m, h)), c.size) ==
      FreeBytes(m, FreeIn(m, 0, h), c.size) + if m[h].used then 0 else Pow2(m[h].order)
  {
    assert TileAt(c, m, h);
    if m[h].used {
      assert FreeIn(m, 0, End(m, h)) == FreeIn(m, 0, h);
    } else {
      assert FreeIn(m, 0, End(m, h)) == FreeIn(m, 0, h) + {h};
      SumGrows(m, FreeIn(m, 0, h), h, c.size);
    }
  }

  lemma WholeWalk(c: Config, m: Tiling)
    requires Tiles(c, m)
    ensures FreeIn(m, 0, c.size) == FreeSet(m)
  {
    forall o | o in m
      ensures 0 <= o < c.size
    {
      assert TileAt(c, m, o);
    }
  }

  // The tiling that _mmp_init_chunk builds.
  ghost function Initial(c: Config): Tiling {
    map o | 0 <= o < c.size && Aligned(o, c.maxO) :: Tile(c.maxO, false)
  }

  lemma InitialTiles(c: Config)
    requires c.Ok()
    ensures Tiles(c, Initial(c)) && Coalesced(c, Initial(c))
  {
    var m := Initial(c);
    ZeroAligned(c.maxO);
    TopAligned(c.maxO, c.tops);
    forall o | o in m
      ensures TileAt(c, m, o)
    {
      AlignedGap(o, c.size, c.maxO);
      Pow2Aligned(c.maxO, c.maxO);
      AlignedSum(o, Pow2(c.maxO), c.maxO);
      forall x | o < x < End(m, o)
        ensures x !in m
      {
        if x in m { AlignedGap(o, x, c.maxO); }
      }
    }
  }

  // Once nothing is in use, coalescing has restored the initial tiling.
  lemma AllFreeIsInitial(c: Config, m: Tiling)
    requires Tiles(c, m) && Coalesced(c, m) && c.Ok() && forall o :: o in m ==> !m[o].used
    ensures m == Initial(c)
  {
    forall o | o in Initial(c)
      ensures o in m && m[o] == Tile(c.maxO, false)
    {
      WholeTopFree(c, m, o);
    }
    forall o | o in m
      ensures o in Initial(c)
    {
      OnlyTops(c, m, o);
    }
  }

  lemma WholeTopFree(c: Config, m: Tiling, o: int)
    requires Tiles(c, m) && Coalesced(c, m) && c.Ok() && forall x :: x in m ==> !m[x].used
    requires 0 <= o < c.size && Aligned(o, c.maxO)
    ensures o in m && m[o] == Tile(c.maxO, false)
  {
    var i := TopIndex(o, c.maxO);
    TopBelow(i, c.tops, Pow2(c.maxO));
    TopStarts(c, m, i);
    AllFreeRegion(c, m, -1, o, c.maxO);
  }

  lemma OnlyTops(c: Config, m: Tiling, o: int)
    requires Tiles(c, m) && Coalesced(c, m) && c.Ok() && (forall x :: x in m ==> !m[x].used) && o in m
    ensures 0 <= o < c.size && Aligned(o, c.maxO)
  {
    assert TileAt(c, m, o);
    var t := Mask(o, c.maxO);
    MaskIsFloor(o, c.maxO);
    ZeroAligned(c.maxO);
    if t < 0 { AlignedGap(t, 0, c.maxO); }
    if t < o {
      WholeTopFree(c, m, t);
      Disjoint(c, m, t, o);
    }
  }

  lemma TopBelow(i: nat, n: nat, p: nat)
    requires Times(i, p) < Times(n, p)
    ensures i < n
  {
    if n <= i {
      TimesGrows(n, i, p);
    }
  }

  lemma {:induction false} TopIndex(o: nat, k: nat) returns (i: nat)
    requires Aligned(o, k)
    ensures o == Times(i, Pow2(k))
    decreases k
  {
    if k == 0 {
      i := o;
      TimesIs(o, 1);
    } else {
      i := TopIndex(o / 2, k - 1);
      TimesIs(i, Pow2(k - 1));
      TimesIs(i, Pow2(k));
      Twice(i, Pow2(k - 1));
    }
  }

  // --- Freeing -------------------------------------------------------------------

  // The block that o would merge with on its left, if both were free.
  ghost function LeftOf(m: Tiling, o: int): int
    requires o in m
  {
    o - Pow2(m[o].order)
  }

  ghost predicate JoinsLeft(c: Config, m: Tiling, o: int) {
    o in m && FreePair(c, m, LeftOf(m, o)) && End(m, LeftOf(m, o)) == o
  }

  // The merge loop of mmp_free: the right buddy first, then the left one.
  ghost function Coalesce(c: Config, m: Tiling, o: int): (r: (Tiling, int))
    requires o in m
    ensures r.1 in r.0
    decreases c.maxO - m[o].order
  {
    if m[o].order >= c.maxO then (m, o)
    else if FreePair(c, m, o) then Coalesce(c, Joined(m, o), o)
    else if JoinsLeft(c, m, o) then Coalesce(c, Joined(m, LeftOf(m, o)), LeftOf(m, o))
    else (m, o)
  }

  ghost function UsedSet(m: Tiling): set<int> {
    set o | o in m && m[o].used
  }

  ghost predicate SameUsed(m: Tiling, n: Tiling) {
    UsedSet(m) == UsedSet(n) && forall o :: o in UsedSet(m) ==> m[o] == n[o]
  }

  lemma JoinedKeeps(c: Config, m: Tiling, o: int, b: int)
    requires Tiles(c, m) && CoalescedBut(c, m, b) && FreePair(c, m, o) && (b == o || b == End(m, o))
    ensures Tiles(c, Joined(m, o)) && CoalescedBut(c, Joined(m, o), o)
    ensures SameUsed(m, Joined(m, o)) && |FreeSet(Joined(m, o))| == |FreeSet(m)| - 1
  {
    JoinedTiles(c, m, o);
    var n := Joined(m, o);
    assert FreeSet(n) == FreeSet(m) - {End(m, o)};
    assert TileAt(c, m, o);
    forall x | FreePair(c, n, x)
      ensures x == o || End(n, x) == o
    {
      assert x != o && End(n, x) != o ==> FreePair(c, m, x);
    }
  }

  lemma {:induction false} CoalesceKeeps(c: Config, m: Tiling, o: int)
    requires Tiles(c, m) && o in m && !m[o].used && CoalescedBut(c, m, o)
    ensures var r := Coalesce(c, m, o); Tiles(c, r.0) && Coalesced(c, r.0) && SameUsed(m, r.0)
    decreases c.maxO - m[o].order
  {
    assert TileAt(c, m, o);
    if m[o].order < c.maxO && FreePair(c, m, o) {
      JoinedKeeps(c, m, o, o);
      CoalesceKeeps(c, Joined(m, o), o);
    } else if m[o].order < c.maxO && JoinsLeft(c, m, o) {
      JoinedKeeps(c, m, LeftOf(m, o), o);
      CoalesceKeeps(c, Joined(m, LeftOf(m, o)), LeftOf(m, o));
    } else {
      var p := LeftOf(m, o);
      forall x
        ensures !FreePair(c, m, x)
      {
        assert FreePair(c, m, x) && End(m, x) == o ==> x == p;
      }
    }
  }

  lemma FreedBut(c: Config, m: Tiling, o: int)
    requires Tiles(c, m) && Coalesced(c, m) && o in m && m[o].used
    ensures var n := m[o := Tile(m[o].order, false)];
      Tiles(c, n) && CoalescedBut(c, n, o) && |FreeSet(n)| == |FreeSet(m)| + 1
  {
    var n := m[o := Tile(m[o].order, false)];
    MarkedTiles(c, m, o, false);
    assert FreeSet(n) == FreeSet(m) + {o};
    forall x | FreePair(c, n, x)
      ensures x == o || End(n, x) == o
    {
      assert !FreePair(c, m, x);
    }
  }

  // What mmp_free does to the tiling.
  ghost function Released(c: Config, m: Tiling, o: int): Tiling
    requires o in m
  {
    Coalesce(c, m[o := Tile(m[o].order, false)], o).0
  }

  lemma ReleasedKeeps(c: Config, m: Tiling, o: int)
    requires Tiles(c, m) && Coalesced(c, m) && o in m && m[o].used
    ensures Tiles(c, Released(c, m, o)) && Coalesced(c, Released(c, m, o))
    ensures UsedSet(Released(c, m, o)) == UsedSet(m) - {o}
    ensures forall x :: x in UsedSet(m) - {o} ==> Released(c, m, o)[x] == m[x]
  {
    var n := m[o := Tile(m[o].order, false)];
    FreedBut(c, m, o);
    CoalesceKeeps(c, n, o);
    assert UsedSet(n) == UsedSet(m) - {o};
  }

  // --- Allocating ------------------------------------------------------------------

  // Split the block at o down to order k; the left half stays at o.
  ghost function SplitDown(m: Tiling, o: int, k: nat): (n: Tiling)
    requires o in m && k <= m[o].order
    ensures o in n && n[o].order == k
    decreases m[o].order
  {
    if m[o].order == k then m else SplitDown(Halved(m, o), o, k)
  }

  // What mmp_alloc does to the tiling once it has picked the block at o.
  ghost function Taken(m: Tiling, o: int, k: nat): Tiling
    requires o in m && k <= m[o].order
  {
    SplitDown(m, o, k)[o := Tile(k, true)]
  }

  lemma HalvedKeeps(c: Config, m: Tiling, o: int)
    requires Tiles(c, m) && CoalescedBut(c, m, o) && o in m && !m[o].used && c.minO < m[o].order
    ensures Tiles(c, Halved(m, o)) && CoalescedBut(c, Halved(m, o), o)
    ensures SameUsed(m, Halved(m, o)) && |FreeSet(Halved(m, o))| == |FreeSet(m)| + 1
  {
    HalvedTiles(c, m, o);
    var n, k := Halved(m, o), m[o].order - 1;
    var h := o + Pow2(k);
    assert FreeSet(n) == FreeSet(m) + {h};
    assert TileAt(c, m, o) && TileAt(c, n, h);
    AlignedDown(o, k, k + 1);
    Parity(o, k);
    forall x | FreePair(c, n, x)
      ensures x == o || End(n, x) == o
    {
      assert TileAt(c, n, x);
      assert x != o && x != h && End(n, x) != o && End(n, x) != h ==> FreePair(c, m, x);
      if x < o { Disjoint(c, n, x, o); }
    }
  }

  lemma TakenLast(c: Config, m: Tiling, o: int)
    requires Tiles(c, m) && CoalescedBut(c, m, o) && o in m && !m[o].used
    ensures var n := m[o := Tile(m[o].order, true)];
      && Tiles(c, n) && Coalesced(c, n) && UsedSet(n) == UsedSet(m) + {o} && |FreeSet(n)| == |FreeSet(m)| - 1
  {
    var n := m[o := Tile(m[o].order, true)];
    MarkedTiles(c, m, o, true);
    assert FreeSet(n) == FreeSet(m) - {o};
    forall x
      ensures !FreePair(c, n, x)
    {
      assert FreePair(c, n, x) ==> FreePair(c, m, x);
    }
  }

  lemma {:induction false} TakenKeeps(c: Config, m: Tiling, o: int, k: nat)
    requires Tiles(c, m) && CoalescedBut(c, m, o) && o in m && !m[o].used && c.minO <= k <= m[o].order
    ensures Tiles(c, Taken(m, o, k)) && Coalesced(c, Taken(m, o, k))
    ensures UsedSet(Taken(m, o, k)) == UsedSet(m) + {o}
    ensures forall x :: x in UsedSet(m) ==> Taken(m, o, k)[x] == m[x]
    decreases m[o].order
  {
    if m[o].order == k {
      TakenLast(c, m, o);
    } else {
      HalvedKeeps(c, m, o);
      TakenKeeps(c, Halved(m, o), o, k);
      assert UsedSet(Halved(m, o)) == UsedSet(m);
    }
  }

  // In the middle of a split there is one free block more than the bound.
  lemma FreeInSplit(c: Config, m: Tiling, o: int)
    requires Tiles(c, m) && CoalescedBut(c, m, o) && o in m && !m[o].used && c.Ok()
    ensures |FreeSet(m)| <= c.Half() + 1
  {
    TakenLast(c, m, o);
    FreeAtMostHalf(c, m[o := Tile(m[o].order, true)]);
  }

  // --- Runs ---------------------------------------------------------------------------

  ghost predicate AllocStep(c: Config, m: Tiling, n: Tiling) {
    exists o, k: nat :: o in m && !m[o].used && c.minO <= k <= m[o].order && n == Taken(m, o, k)
  }

  ghost predicate FreeStep(c: Config, m: Tiling, n: Tiling) {
    exists o :: o in m && m[o].used && n == Released(c, m, o)
  }

  ghost predicate Run(c: Config, run: seq<Tiling>) {
    && |run| > 0 && run[0] == Initial(c)
    && forall i :: 0 <= i < |run| - 1 ==> AllocStep(c, run[i], run[i + 1]) || FreeStep(c, run[i], run[i + 1])
  }

  // Along every run of allocations and frees the blocks tile the chunk, no two
  // buddies are both free, and once nothing is in use the chunk is as it was.
  lemma {:induction false} RunKeepsTiling(c: Config, run: seq<Tiling>)
    requires c.Ok() && Run(c, run)
    ensures var m := run[|run| - 1];
      && Tiles(c, m) && Coalesced(c, m) && |FreeSet(m)| <= c.Half()
      && (UsedSet(m) == {} ==> m == Initial(c))
    decreases |run|
  {
    var m := run[|run| - 1];
    if |run| == 1 {
      InitialTiles(c);
    } else {
      var p := run[..|run| - 1];
      RunKeepsTiling(c, p);
      var b := p[|p| - 1];
      assert AllocStep(c, run[|run| - 2], run[|run| - 2 + 1]) || FreeStep(c, run[|run| - 2], run[|run| - 2 + 1]);
      StepKeeps(c, b, m);
    }
    FreeAtMostHalf(c, m);
    if UsedSet(m) == {} {
      forall o | o in m
        ensures !m[o].used
      {
        assert o !in UsedSet(m);
      }
      AllFreeIsInitial(c, m);
    }
  }

  lemma StepKeeps(c: Config, m: Tiling, n: Tiling)
    requires Tiles(c, m) && Coalesced(c, m) && (AllocStep(c, m, n) || FreeStep(c, m, n))
    ensures Tiles(c, n) && Coalesced(c, n)
  {
    if AllocStep(c, m, n) {
      var o, k: nat :| o in m && !m[o].used && c.minO <= k <= m[o].order && n == Taken(m, o, k);
      TakenKeeps(c, m, o, k);
    } else {
      var o :| o in m && m[o].used && n == Released(c, m, o);
      ReleasedKeeps(c, m, o);
    }
  }
}
