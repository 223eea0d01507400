// Block heads and tails under the steps of src/mmpool.c: making, splitting,
// joining, taking and freeing blocks.
module MmSteps {
  import opened Arith
  import opened Align
  import opened Buddy
  import opened MmIndex

  // _make_block: a head and a tail; the free-list node number stays what it was.
  ghost function Made(mem: Mem, o: int, size: nat, dust: nat): Mem {
    var fln := if o in mem.heads then mem.heads[o].fln else dust;
    Mem(mem.heads[o := Head(false, fln, size)], mem.tails[o + size := size])
  }

  ghost function Flagged(mem: Mem, o: int, used: bool): Mem
    requires o in mem.heads
  {
    mem.(heads := mem.heads[o := mem.heads[o].(used := used)])
  }

  lemma FlnKeepsHeads(c: Config, mem: Mem, m: Tiling, x: int, o: int, f: nat)
    requires HeadsBut(c, mem, m, x) && o in mem.heads && (o in m && m[o].used ==> f == 0)
    ensures HeadsBut(c, WithFln(mem, o, f), m, x)
  {
    var mem' := WithFln(mem, o, f);
    forall y | y in m && y != x
      ensures HeadAt(mem', m, y)
    {
      assert HeadAt(mem, m, y);
    }
    forall y | y in mem'.heads
      ensures StaleAt(c, mem', m, y)
    {
      assert StaleAt(c, mem, m, y);
    }
  }

  // The right half of the block at o becomes a block of its own.
  lemma SplitHeads(c: Config, mem: Mem, m: Tiling, o: int, dust: nat)
    requires Tiles(c, m) && HeadsBut(c, mem, m, o) && o in m && c.minO < m[o].order
    ensures var k := m[o].order - 1;
      HeadsBut(c, Made(mem, o + Pow2(k), Pow2(k), dust), Halved(m, o), o)
  {
    var k, n := m[o].order - 1, Halved(m, o);
    var h := o + Pow2(k);
    var mem' := Made(mem, h, Pow2(k), dust);
    assert TileAt(c, m, o);
    HalvedTiles(c, m, o);
    forall y | y in n && y != o
      ensures HeadAt(mem', n, y)
    {
      if y != h {
        assert HeadAt(mem, m, y) && TileAt(c, m, y);
        if o < y { Disjoint(c, m, o, y); } else { Disjoint(c, m, y, o); }
      }
    }
    forall y | y in mem'.heads
      ensures StaleAt(c, mem', n, y)
    {
      assert y != h ==> StaleAt(c, mem, m, y);
    }
  }

  // The left half gets its own head and tail.
  lemma MadeHeads(c: Config, mem: Mem, m: Tiling, o: int, dust: nat)
    requires Tiles(c, m) && HeadsBut(c, mem, m, o) && o in m && !m[o].used
    ensures HeadsBut(c, Made(mem, o, Pow2(m[o].order), dust), m, -1)
  {
    var mem' := Made(mem, o, Pow2(m[o].order), dust);
    assert TileAt(c, m, o);
    forall y | y in m && y != -1
      ensures HeadAt(mem', m, y)
    {
      if y != o {
        assert HeadAt(mem, m, y) && TileAt(c, m, y);
        if o < y { Disjoint(c, m, o, y); } else { Disjoint(c, m, y, o); }
      }
    }
    forall y | y in mem'.heads
      ensures StaleAt(c, mem', m, y)
    {
      assert y != o ==> StaleAt(c, mem, m, y);
    }
    assert !TileAt(c, m, -1);
  }

  // Two free buddies become one block.
  lemma JoinHeads(c: Config, mem: Mem, m: Tiling, o: int, dust: nat)
    requires Tiles(c, m) && HeadsBut(c, mem, m, -1) && FreePair(c, m, o)
    ensures HeadsBut(c, Made(mem, o, Pow2(m[o].order + 1), dust), Joined(m, o), -1)
  {
    var n, b := Joined(m, o), End(m, o);
    var mem' := Made(mem, o, Pow2(m[o].order + 1), dust);
    assert TileAt(c, m, o) && TileAt(c, m, b);
    forall y | y in n && y != -1
      ensures HeadAt(mem', n, y)
    {
      if y != o {
        assert HeadAt(mem, m, y) && TileAt(c, m, y);
        if o < y { Disjoint(c, m, b, y); } else { Disjoint(c, m, y, o); }
      }
    }
    forall y | y in mem'.heads
      ensures StaleAt(c, mem', n, y)
    {
      assert y != o ==> StaleAt(c, mem, m, y);
      assert y == b ==> HeadAt(mem, m, b);
    }
    assert !TileAt(c, m, -1);
  }

  lemma FlagKeepsHeads(c: Config, mem: Mem, m: Tiling, o: int, used: bool)
    requires Tiles(c, m) && HeadsBut(c, mem, m, -1) && o in m && o in mem.heads && mem.heads[o].fln == 0
    ensures HeadsBut(c, Flagged(mem, o, used), m[o := Tile(m[o].order, used)], -1)
  {
    var mem', n := Flagged(mem, o, used), m[o := Tile(m[o].order, used)];
    assert !TileAt(c, m, -1);
    forall y | y in n && y != -1
      ensures HeadAt(mem', n, y)
    {
      assert HeadAt(mem, m, y);
    }
    forall y | y in mem'.heads
      ensures StaleAt(c, mem', n, y)
    {
      assert StaleAt(c, mem, m, y);
    }
  }

  // --- The index along with the heads ----------------------------------------------

  // Heads, index and tiling agree while block x is being rewritten.
  ghost predicate Fits(c: Config, mem: Mem, ix: Index, m: Tiling, x: int, B: set<int>, held: int) {
    c.Ok() && Tiles(c, m) && HeadsBut(c, mem, m, x) && Agree(c, mem, ix, m, B, held)
  }

  // One step of the split: the right half is made ...
  lemma HalfFits(c: Config, mem: Mem, ix: Index, m: Tiling, o: int, f: nat, dust: nat)
    requires Fits(c, mem, ix, m, o, {o}, f) && CoalescedBut(c, m, o) && o in m && !m[o].used && c.minO < m[o].order
    ensures var h, n := o + Pow2(m[o].order - 1), Halved(m, o);
      && CoalescedBut(c, n, o) && n[o].order <= c.maxO && h in n && h != o && TileAt(c, n, h)
      && Fits(c, Made(mem, h, Pow2(n[o].order), dust), ix, n, o, {o, h}, f)
  {
    var k, n := m[o].order - 1, Halved(m, o);
    var h := o + Pow2(k);
    assert TileAt(c, m, o);
    HalvedKeeps(c, m, o);
    HalvedTiles(c, m, o);
    SplitHeads(c, mem, m, o, dust);
    assert TileAt(c, n, h);
    RetileKeeps(c, mem, ix, m, {o}, f, Made(mem, h, Pow2(k), dust), n, {o, h});
  }

  // ... and listed.
  lemma SplitFits(c: Config, mem: Mem, ix: Index, m: Tiling, o: int, f: nat, dust: nat)
    requires Fits(c, mem, ix, m, o, {o}, f) && CoalescedBut(c, m, o) && o in m && !m[o].used && c.minO < m[o].order
    requires |ix.spare| > 0
    ensures var h, n := o + Pow2(m[o].order - 1), Halved(m, o);
      var mem1 := Made(mem, h, Pow2(n[o].order), dust);
      && CoalescedBut(c, n, o) && n[o].order <= c.maxO && ix.spare[0] < |ix.block|
      && h in n && Fits(c, WithFln(mem1, h, ix.spare[0]), Pushed(ix, Slot(c, n, h), h), n, o, {o}, f)
  {
    HalfFits(c, mem, ix, m, o, f, dust);
    var h, n := o + Pow2(m[o].order - 1), Halved(m, o);
    var mem1 := Made(mem, h, Pow2(n[o].order), dust);
    assert SpareAt(ix, f, ix.spare[0]);
    PushKeeps(c, mem1, ix, n, {o, h}, f, h);
    assert {o, h} - {h} == {o};
    FlnKeepsHeads(c, mem1, n, o, h, ix.spare[0]);
  }

  // The end of the split: the left half is made and listed, the node given back.
  lemma LeftHalfFits(c: Config, mem: Mem, ix: Index, m: Tiling, o: int, f: nat, dust: nat)
    requires Fits(c, mem, ix, m, o, {o}, f) && o in m && !m[o].used && |ix.spare| > 0
    ensures var mem1 := Made(mem, o, Pow2(m[o].order), dust);
      && ix.spare[0] < |ix.block| && ix.spare[0] != f && c.minO <= m[o].order <= c.maxO
      && var ix1 := Pushed(ix, Slot(c, m, o), o);
      && Fits(c, WithFln(mem1, o, ix.spare[0]), ix1, m, -1, {}, f)
      && Fits(c, WithFln(mem1, o, ix.spare[0]), Returned(ix1, f), m, -1, {}, -1)
  {
    var mem1 := Made(mem, o, Pow2(m[o].order), dust);
    assert TileAt(c, m, o);
    MadeHeads(c, mem, m, o, dust);
    RetileKeeps(c, mem, ix, m, {o}, f, mem1, m, {o});
    assert SpareAt(ix, f, ix.spare[0]);
    PushKeeps(c, mem1, ix, m, {o}, f, o);
    assert {o} - {o} == {};
    FlnKeepsHeads(c, mem1, m, -1, o, ix.spare[0]);
    ReturnKeeps(c, WithFln(mem1, o, ix.spare[0]), Pushed(ix, Slot(c, m, o), o), m, {}, f);
  }

  // A block taken off its list as it is.
  lemma TakenFits(c: Config, mem: Mem, ix: Index, m: Tiling, o: int, f: nat)
    requires Fits(c, mem, ix, m, -1, {o}, f) && o in m && !m[o].used && o in mem.heads
    ensures Fits(c, WithFln(mem, o, 0), Returned(ix, f), m, -1, {o}, -1)
  {
    FlnKeepsHeads(c, mem, m, -1, o, 0);
    ReturnKeeps(c, mem, ix, m, {o}, f);
    RetileKeeps(c, mem, Returned(ix, f), m, {o}, -1, WithFln(mem, o, 0), m, {o});
  }

  // The taken block is marked as used.
  lemma MarkedFits(c: Config, mem: Mem, ix: Index, m: Tiling, o: int)
    requires Fits(c, mem, ix, m, -1, {o}, -1) && o in m && !m[o].used && o in mem.heads && mem.heads[o].fln == 0
    ensures Fits(c, Flagged(mem, o, true), ix, m[o := Tile(m[o].order, true)], -1, {}, -1)
  {
    var n := m[o := Tile(m[o].order, true)];
    MarkedTiles(c, m, o, true);
    FlagKeepsHeads(c, mem, m, o, true);
    assert FreeSet(n) - {} == FreeSet(m) - {o};
    RetileKeeps(c, mem, ix, m, {o}, -1, Flagged(mem, o, true), n, {});
  }

  // A used block whose flag is cleared.
  lemma ClearedFits(c: Config, mem: Mem, ix: Index, m: Tiling, o: int)
    requires Fits(c, mem, ix, m, -1, {}, -1) && o in m && m[o].used && o in mem.heads
    ensures Fits(c, Flagged(mem, o, false), ix, m[o := Tile(m[o].order, false)], -1, {o}, -1)
    ensures mem.heads[o].fln == 0
  {
    var mem1, n := Flagged(mem, o, false), m[o := Tile(m[o].order, false)];
    assert TileAt(c, m, o) && !TileAt(c, m, -1) && HeadAt(mem, m, o);
    MarkedTiles(c, m, o, false);
    FlagKeepsHeads(c, mem, m, o, false);
    assert FreeSet(n) - {o} == FreeSet(m) - {};
    RetileKeeps(c, mem, ix, m, {}, -1, mem1, n, {o});
  }

  // Merging: block u leaves its list and the pair at o becomes one block.
  lemma MergedFits(c: Config, mem: Mem, ix: Index, m: Tiling, b: int, u: int, o: int, dust: nat)
    requires Fits(c, mem, ix, m, -1, {b}, -1) && FreePair(c, m, o) && {b, u} == {o, End(m, o)}
    ensures u in m && IndexedAt(c, mem, ix, m, u) && u in mem.heads
    ensures var mem1 := Made(WithFln(mem, u, 0), o, Pow2(m[o].order + 1), dust);
      Fits(c, mem1, Unlinked(ix, Slot(c, m, u), mem.heads[u].fln), Joined(m, o), -1, {o}, -1)
  {
    assert TileAt(c, m, o) && TileAt(c, m, End(m, o));
    var n := Joined(m, o);
    UnlinkKeeps(c, mem, ix, m, {b}, u);
    var mem0, ix1 := WithFln(mem, u, 0), Unlinked(ix, Slot(c, m, u), mem.heads[u].fln);
    var mem1 := Made(mem0, o, Pow2(m[o].order + 1), dust);
    FlnKeepsHeads(c, mem, m, -1, u, 0);
    JoinedTiles(c, m, o);
    JoinHeads(c, mem0, m, o, dust);
    assert FreeSet(n) - {o} == FreeSet(m) - {b, u};
    assert {b} + {u} == {b, u};
    RetileKeeps(c, mem0, ix1, m, {b} + {u}, -1, mem1, n, {o});
  }

  // A freed block is listed again.
  lemma ListedFits(c: Config, mem: Mem, ix: Index, m: Tiling, o: int)
    requires Fits(c, mem, ix, m, -1, {o}, -1) && o in m && !m[o].used && |ix.spare| > 0
    ensures HeadAt(mem, m, o) && ix.spare[0] < |ix.block| && c.minO <= m[o].order <= c.maxO
    ensures Fits(c, WithFln(mem, o, ix.spare[0]), Pushed(ix, Slot(c, m, o), o), m, -1, {}, -1)
  {
    assert TileAt(c, m, o) && !TileAt(c, m, -1) && HeadAt(mem, m, o);
    PushKeeps(c, mem, ix, m, {o}, -1, o);
    assert {o} - {o} == {};
    FlnKeepsHeads(c, mem, m, -1, o, ix.spare[0]);
  }

  // --- Building the chunk ------------------------------------------------------------

  // The chunk with its first i blocks of the highest order.
  ghost function Part(c: Config, i: nat): Config {
    Config(c.minO, c.maxO, i, Times(i, Pow2(c.maxO)))
  }

  lemma PartGrows(c: Config, i: nat)
    requires c.Ok() && i < c.tops
    ensures Part(c, i).Ok() && Part(c, i + 1).Ok()
    ensures Part(c, i + 1).size == Part(c, i).size + Pow2(c.maxO) <= c.size
    ensures Aligned(Part(c, i).size, c.maxO) && 0 <= Part(c, i).size
  {
    TimesGrows(i, c.tops, Pow2(c.maxO));
    TopAligned(c.maxO, i);
  }

  lemma InitialGrows(c: Config, i: nat)
    requires c.Ok() && i < c.tops
    ensures Initial(Part(c, i + 1)) == Initial(Part(c, i))[Part(c, i).size := Tile(c.maxO, false)]
    ensures Part(c, i).size !in Initial(Part(c, i))
  {
    PartGrows(c, i);
    var o := Part(c, i).size;
    forall x {:trigger x in Initial(Part(c, i + 1))} | o < x
      ensures x !in Initial(Part(c, i + 1))
    {
      if x in Initial(Part(c, i + 1)) { AlignedGap(o, x, c.maxO); }
    }
  }

  lemma AgreeInPart(c: Config, d: Config, mem: Mem, ix: Index, m: Tiling, B: set<int>, held: int)
    requires Agree(c, mem, ix, m, B, held) && c.minO == d.minO && c.maxO == d.maxO
    ensures Agree(d, mem, ix, m, B, held)
  {
    forall o | o in FreeSet(m) - B
      ensures IndexedAt(d, mem, ix, m, o)
    {
      assert IndexedAt(c, mem, ix, m, o);
    }
    forall i, f | 0 <= i < |ix.lists| && f in ix.lists[i]
      ensures ListedAt(d, mem, ix, m, B, held, i, f)
    {
      assert ListedAt(c, mem, ix, m, B, held, i, f);
    }
  }

  lemma TopHeads(c: Config, mem: Mem, i: nat, dust: nat)
    requires c.Ok() && i < c.tops && HeadsBut(Part(c, i), mem, Initial(Part(c, i)), -1)
    ensures var o := Part(c, i).size;
      HeadsBut(Part(c, i + 1), Made(mem, o, Pow2(c.maxO), dust), Initial(Part(c, i + 1)), -1)
  {
    var o, m, n := Part(c, i).size, Initial(Part(c, i)), Initial(Part(c, i + 1));
    var mem1 := Made(mem, o, Pow2(c.maxO), dust);
    PartGrows(c, i);
    InitialGrows(c, i);
    forall y | y in n && y != -1
      ensures HeadAt(mem1, n, y)
    {
      assert y != o ==> HeadAt(mem, m, y);
    }
    forall y | y in mem1.heads
      ensures StaleAt(Part(c, i + 1), mem1, n, y)
    {
      assert y != o ==> StaleAt(Part(c, i), mem, m, y);
    }
  }

  lemma TopAgrees(c: Config, mem: Mem, ix: Index, i: nat, dust: nat)
    requires c.Ok() && i < c.tops
    requires Agree(Part(c, i), mem, ix, Initial(Part(c, i)), {}, -1)
    ensures var o, d := Part(c, i).size, Part(c, i + 1);
      Agree(d, Made(mem, o, Pow2(c.maxO), dust), ix, Initial(d), {o}, -1)
  {
    var o, d := Part(c, i).size, Part(c, i + 1);
    var m, n := Initial(Part(c, i)), Initial(d);
    PartGrows(c, i);
    InitialGrows(c, i);
    AgreeInPart(Part(c, i), d, mem, ix, m, {}, -1);
    assert FreeSet(n) - {o} == FreeSet(m) - {};
    RetileKeeps(d, mem, ix, m, {}, -1, Made(mem, o, Pow2(c.maxO), dust), n, {o});
  }

  // The first i blocks of the highest order are made and listed.
  ghost predicate Prefix(c: Config, mem: Mem, ix: Index, m: Tiling, i: nat) {
    && c.Ok() && i <= c.tops
    && Fits(Part(c, i), mem, ix, m, -1, {}, -1) && m == Initial(Part(c, i))
  }

  lemma TopPushed(c: Config, mem: Mem, ix: Index, i: nat, dust: nat)
    requires c.Ok() && i < c.tops && |ix.spare| > 0
    requires Agree(Part(c, i), mem, ix, Initial(Part(c, i)), {}, -1)
    ensures ix.spare[0] < |ix.block|
    ensures var o, d := Part(c, i).size, Part(c, i + 1);
      var mem1 := Made(mem, o, Pow2(c.maxO), dust);
      Agree(d, WithFln(mem1, o, ix.spare[0]), Pushed(ix, c.maxO - c.minO, o), Initial(d), {}, -1)
  {
    var o, d := Part(c, i).size, Part(c, i + 1);
    TopAgrees(c, mem, ix, i, dust);
    PartGrows(c, i);
    InitialGrows(c, i);
    PushKeeps(d, Made(mem, o, Pow2(c.maxO), dust), ix, Initial(d), {o}, -1, o);
    assert {o} - {o} == {};
  }

  // One more of them is.
  lemma TopFits(c: Config, mem: Mem, ix: Index, m: Tiling, i: nat, dust: nat)
    requires Prefix(c, mem, ix, m, i) && i < c.tops && |ix.spare| > 0
    ensures ix.spare[0] < |ix.block|
    ensures var o := Part(c, i).size;
      var mem1 := Made(mem, o, Pow2(c.maxO), dust);
      Prefix(c, WithFln(mem1, o, ix.spare[0]), Pushed(ix, c.maxO - c.minO, o), Initial(Part(c, i + 1)), i + 1)
  {
    var o, d := Part(c, i).size, Part(c, i + 1);
    TopPushed(c, mem, ix, i, dust);
    TopHeads(c, mem, i, dust);
    InitialGrows(c, i);
    FlnKeepsHeads(d, Made(mem, o, Pow2(c.maxO), dust), Initial(d), -1, o, ix.spare[0]);
    PartGrows(c, i);
    InitialTiles(d);
  }

  // --- Neighbours ------------------------------------------------------------------

  // Every block but the first one has a block that ends where it starts.
  lemma {:induction false} BlockBefore(c: Config, m: Tiling, o: int, x: int) returns (p: int)
    requires Tiles(c, m) && o in m && x in m && 0 <= x < o
    ensures p in m && End(m, p) == o
    decreases o - x
  {
    assert TileAt(c, m, o) && TileAt(c, m, x);
    Disjoint(c, m, x, o);
    if End(m, x) == o {
      p := x;
    } else {
      p := BlockBefore(c, m, o, End(m, x));
    }
  }

  // The word in front of a block tells the size of the block before it.
  lemma TailBefore(c: Config, mem: Mem, m: Tiling, o: int) returns (p: int)
    requires Tiles(c, m) && HeadsBut(c, mem, m, -1) && o in m && 0 < o
    ensures p in m && End(m, p) == o && HeadAt(mem, m, p)
    ensures o in mem.tails && o - mem.tails[o] == p
  {
    assert TileAt(c, m, o) && !TileAt(c, m, -1);
    p := BlockBefore(c, m, o, 0);
    assert HeadAt(mem, m, p);
  }

  // An aligned block below the highest order has room for its right buddy.
  lemma RoomForBuddy(c: Config, m: Tiling, o: int)
    requires Tiles(c, m) && c.Ok() && o in m && m[o].order < c.maxO && Aligned(o, m[o].order + 1)
    ensures o + Pow2(m[o].order + 1) <= c.size && End(m, o) in m
  {
    assert TileAt(c, m, o);
    TopAligned(c.maxO, c.tops);
    AlignedDown(c.size, m[o].order + 1, c.maxO);
    AlignedGap(o, c.size, m[o].order + 1);
  }

  // What _merge_buddy_next tests: both flags clear, equal sizes, equal masks.
  ghost predicate NextTest(m: Tiling, o: int, next: Head)
    requires o in m
  {
    && !m[o].used && !next.used && next.size == Pow2(m[o].order)
    && Mask(o, m[o].order + 1) == Mask(End(m, o), m[o].order + 1)
  }

  // The test accepts exactly the free right buddies; at the end of the chunk
  // it refuses whatever the memory there holds.
  lemma NextTestIsBuddy(c: Config, mem: Mem, m: Tiling, o: int, next: Head)
    requires Tiles(c, m) && c.Ok() && HeadsBut(c, mem, m, -1) && o in m && m[o].order < c.maxO
    requires End(m, o) in m ==> End(m, o) in mem.heads && next == mem.heads[End(m, o)]
    ensures NextTest(m, o, next) <==> FreePair(c, m, o)
  {
    assert TileAt(c, m, o) && !TileAt(c, m, -1);
    BuddyMask(o, m[o].order);
    if Aligned(o, m[o].order + 1) {
      RoomForBuddy(c, m, o);
      assert HeadAt(mem, m, End(m, o));
      SameOrder(m[End(m, o)].order, m[o].order);
    }
  }

  // Two powers of two are equal only when their orders are.
  lemma SameOrder(a: nat, b: nat)
    ensures Pow2(a) == Pow2(b) <==> a == b
  {
    if a < b { Pow2Grows(a, b); } else if b < a { Pow2Grows(b, a); }
  }

  // The same test on the block p in front of o.
  lemma PrevTestIsBuddy(c: Config, mem: Mem, m: Tiling, o: int, p: int)
    requires Tiles(c, m) && c.Ok() && HeadsBut(c, mem, m, -1) && o in m && !m[o].used && m[o].order < c.maxO
    requires p in m && End(m, p) == o
    ensures (!m[p].used && Pow2(m[p].order) == Pow2(m[o].order) &&
             Mask(p, m[o].order + 1) == Mask(o, m[o].order + 1)) <==> JoinsLeft(c, m, o)
    ensures JoinsLeft(c, m, o) ==> p == LeftOf(m, o)
  {
    assert TileAt(c, m, p) && TileAt(c, m, o);
    SameOrder(m[p].order, m[o].order);
    if m[p].order == m[o].order {
      BuddyMask(p, m[o].order);
    } else {
      assert JoinsLeft(c, m, o) ==> TileAt(c, m, LeftOf(m, o));
    }
  }

  // The memory in front of the chunk never passes the mask test against offset 0.
  lemma BeforeChunk(x: int, k: nat)
    requires x < 0
    ensures Mask(x, k) != Mask(0, k)
  {
    ZeroAligned(k);
    MaskOf(0, 0, k);
    MaskIsFloor(x, k);
  }
}
