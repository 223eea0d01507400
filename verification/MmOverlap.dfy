// When mmp_free of src/mmpool.c merges the first block of the chunk with itself.
module MmOverlap {
  import opened Arith
  import opened Align
  import opened Buddy

  // Another free block has the size of block o.
  ghost predicate HasTwin(m: Tiling, o: int)
    requires o in m
  {
    exists x :: x in m && x != o && m[x] == Tile(m[o].order, false)
  }

  // The merge loop stops at the start of the chunk, below the highest order,
  // with another free block of that size.
  ghost predicate StopsAtStart(c: Config, m: Tiling, o: int)
    requires o in m
  {
    var r := Coalesce(c, m[o := Tile(m[o].order, false)], o);
    r.1 == 0 && r.0[0].order < c.maxO && HasTwin(r.0, 0)
  }

  // The same before the call: some order k below the highest such that the first
  // 2^k bytes hold o and otherwise only free blocks, the next 2^k bytes hold a
  // block in use, and a free block of order k lies behind the first 2^k bytes.
  ghost predicate DoublesAt(c: Config, m: Tiling, o: int, k: nat) {
    && k < c.maxO && o < Pow2(k)
    && (forall x :: x in m && x < Pow2(k) && x != o ==> !m[x].used)
    && (exists u :: u in m && Pow2(k) <= u < Pow2(k + 1) && m[u].used)
    && (exists x :: x in m && Pow2(k) <= x && m[x] == Tile(k, false))
  }

  ghost predicate Doubles(c: Config, m: Tiling, o: int) {
    exists k: nat :: DoublesAt(c, m, o, k)
  }

  // Of the merged tiling n, whose block b took o in: b is free, and every other
  // block is as it was in m; what b took in was free.
  ghost predicate Swallowed(c: Config, m: Tiling, o: int, n: Tiling, b: int, x: int) {
    && Tiles(c, n) && o in m && b in n && b <= o && End(m, o) <= End(n, b) && !n[b].used
    && (x in n && x != b ==> x in m && n[x] == m[x])
    && (x in m && !(b <= x < End(n, b)) ==> x in n && n[x] == m[x])
    && (x in m && b <= x < End(n, b) ==> !m[x].used)
  }

  lemma JoinThenSwallow(c: Config, m: Tiling, p: int, o: int, n: Tiling, b: int, x: int)
    requires Tiles(c, m) && FreePair(c, m, p) && (o == p || o == End(m, p)) && o in m
    requires Swallowed(c, Joined(m, p), p, n, b, x)
    ensures Swallowed(c, m, o, n, b, x)
  {
    assert TileAt(c, n, b);
  }

  // Merging swallows free blocks around o and leaves every other block alone.
  lemma {:induction false} CoalesceAt(c: Config, m: Tiling, o: int, x: int)
    requires Tiles(c, m) && o in m && !m[o].used
    ensures var r := Coalesce(c, m, o); Swallowed(c, m, o, r.0, r.1, x)
    decreases c.maxO - m[o].order
  {
    var r := Coalesce(c, m, o);
    if m[o].order < c.maxO && FreePair(c, m, o) {
      JoinedTiles(c, m, o);
      CoalesceAt(c, Joined(m, o), o, x);
      JoinThenSwallow(c, m, o, o, r.0, r.1, x);
    } else if m[o].order < c.maxO && JoinsLeft(c, m, o) {
      var p := LeftOf(m, o);
      JoinedTiles(c, m, p);
      CoalesceAt(c, Joined(m, p), p, x);
      JoinThenSwallow(c, m, p, o, r.0, r.1, x);
    } else {
      assert x in m && o < x ==> TileAt(c, m, o);
    }
  }

  // The chunk has room for a block of any order at its start.
  lemma WholeTop(c: Config, m: Tiling, k: nat)
    requires c.Ok() && Tiles(c, m) && 0 in m && k <= c.maxO
    ensures Pow2(k) <= c.size
  {
    assert TileAt(c, m, 0);
    TopBelow(0, c.tops, Pow2(c.maxO));
    TimesGrows(0, c.tops, Pow2(c.maxO));
    Pow2Grows(k, c.maxO);
  }

  // Where the loop stops at the start of the chunk, a block in use lies in the
  // stretch that doubling would take in.
  lemma OverlapHitsUsed(c: Config, m: Tiling, o: int) returns (u: int)
    requires c.Ok() && Tiles(c, m) && Coalesced(c, m) && o in UsedSet(m) && StopsAtStart(c, m, o)
    ensures var n := Coalesce(c, m[o := Tile(m[o].order, false)], o).0;
      && 0 in n && u in UsedSet(m) && u != o && u in n
      && Pow2(n[0].order) <= u && End(m, u) <= Pow2(n[0].order + 1)
  {
    var m1 := m[o := Tile(m[o].order, false)];
    FreedBut(c, m, o);
    CoalesceKeeps(c, m1, o);
    var n := Coalesce(c, m1, o).0;
    var k := n[0].order + 1;
    assert TileAt(c, n, 0);
    ZeroAligned(k);
    WholeTop(c, n, k);
    if forall x :: x in n && 0 <= x < 0 + Pow2(k) ==> !n[x].used {
      AllFreeRegion(c, n, -1, 0, k);
    }
    u :| u in n && 0 <= u < Pow2(k) && n[u].used;
    RegionEnds(c, n, 0, k, u);
    CoalesceAt(c, m1, o, u);
    Disjoint(c, n, 0, u);
  }

  lemma StopIsDouble(c: Config, m: Tiling, o: int)
    requires c.Ok() && Tiles(c, m) && Coalesced(c, m) && o in UsedSet(m) && StopsAtStart(c, m, o)
    ensures Doubles(c, m, o)
  {
    var m1 := m[o := Tile(m[o].order, false)];
    FreedBut(c, m, o);
    var n := Coalesce(c, m1, o).0;
    var k := n[0].order;
    var u := OverlapHitsUsed(c, m, o);
    CoalesceAt(c, m1, o, u);
    assert TileAt(c, m, u);
    forall x | x in m && x < Pow2(k) && x != o
      ensures !m[x].used
    {
      CoalesceAt(c, m1, o, x);
      assert TileAt(c, m, x);
    }
    var x :| x in n && x != 0 && n[x] == Tile(k, false);
    CoalesceAt(c, m1, o, x);
    assert TileAt(c, n, x);
    Disjoint(c, n, 0, x);
    CoalesceAt(c, m1, o, o);
    assert x != o && o < Pow2(k) by { assert TileAt(c, m1, o); }
    assert DoublesAt(c, m, o, k);
  }

  lemma DoubleIsStop(c: Config, m: Tiling, o: int, k: nat)
    requires c.Ok() && Tiles(c, m) && Coalesced(c, m) && o in UsedSet(m) && DoublesAt(c, m, o, k)
    ensures StopsAtStart(c, m, o)
  {
    var m1 := m[o := Tile(m[o].order, false)];
    FreedBut(c, m, o);
    CoalesceKeeps(c, m1, o);
    var r := Coalesce(c, m1, o);
    var n, b := r.0, r.1;
    var u :| u in m && Pow2(k) <= u < Pow2(k + 1) && m[u].used;
    CoalesceAt(c, m1, o, u);
    assert u in n && n[u].used;
    assert TileAt(c, m, o);
    assert TileAt(c, n, b) && TileAt(c, n, 0) by { assert TileAt(c, m, o); }
    StartOrder(c, m1, n, o, b, k, u);
    if b != 0 { Disjoint(c, n, 0, b); }
    var x :| x in m && Pow2(k) <= x && m[x] == Tile(k, false);
    CoalesceAt(c, m1, o, x);
  }

  // After the merge one free block takes up the first 2^k bytes.
  lemma StartOrder(c: Config, m1: Tiling, n: Tiling, o: int, b: int, k: nat, u: int)
    requires c.Ok() && Tiles(c, m1) && o in m1 && !m1[o].used && Coalesce(c, m1, o) == (n, b)
    requires Tiles(c, n) && Coalesced(c, n) && k < c.maxO
    requires forall x :: x in m1 && x < Pow2(k) ==> !m1[x].used
    requires u in n && Pow2(k) <= u < Pow2(k + 1)
    ensures 0 in n && n[0].order == k
  {
    assert TileAt(c, n, u);
    assert 0 in n && TileAt(c, n, 0);
    if n[0].order > k { Pow2Grows(k + 1, n[0].order); }
    ZeroAligned(k);
    WholeTop(c, n, k);
    forall x | x in n && 0 <= x < 0 + Pow2(k)
      ensures !n[x].used
    {
      CoalesceAt(c, m1, o, x);
    }
    AllFreeRegion(c, n, -1, 0, k);
  }

  // Whether the loop stops at the start can be read off before the call.
  lemma DoublesExactly(c: Config, m: Tiling, o: int)
    requires c.Ok() && Tiles(c, m) && Coalesced(c, m) && o in UsedSet(m)
    ensures StopsAtStart(c, m, o) <==> Doubles(c, m, o)
  {
    if StopsAtStart(c, m, o) {
      StopIsDouble(c, m, o);
    }
    if Doubles(c, m, o) {
      var k: nat :| DoublesAt(c, m, o, k);
      DoubleIsStop(c, m, o, k);
    }
  }
}
