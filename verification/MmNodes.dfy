// How many list nodes the pool of src/mmpool.c needs: exactly so many that no
// run of allocations and frees ever asks for one that is not there.
module MmNodes {
  import opened Arith
  import opened Align
  import opened Buddy
  import opened MmIndex
  import opened MmSteps
  import opened MmPool
  import opened MmLaws

  // The lowest order that an allocation can ask for: a payload of one byte does
  // not fit between the head and the tail of a block of 16 bytes.
  function Ask(c: Config): nat {
    if c.minO <= 4 then 5 else c.minO
  }

  lemma AskIsLeast(c: Config, payload: nat)
    requires c.Ok() && payload > 0
    ensures OrderOf(c, payload) == -1 || Ask(c) <= OrderOf(c, payload) <= c.maxO
    ensures OrderOf(c, 1) == Ask(c)
  {
    AskFor(c, payload, OrderOf(c, payload));
    AskFor(c, 1, OrderOf(c, 1));
  }

  lemma AskFor(c: Config, payload: nat, k: int)
    requires c.Ok() && payload > 0 && k == OrderOf(c, payload)
    ensures k == -1 || Ask(c) <= k <= c.maxO
    ensures payload == 1 ==> k == Ask(c)
  {
    OrderIsLeast(c, payload, k);
    assert Pow2(4) == 16 by { assert Pow2(2) == 4; }
    assert Pow2(5) == 32;
    Powers(5, c.maxO);
    Powers(5, c.minO);
    assert payload == 1 && Ask(c) < k ==> Pow2(Ask(c)) < 17;
  }

  // The chunk as far as allocations split it.
  ghost function Working(c: Config): Config {
    if Ask(c) < c.maxO then c.(minO := Ask(c)) else c
  }

  ghost function Need(c: Config): nat
    requires c.Ok()
  {
    if Ask(c) < c.maxO then Working(c).Half() + 2 else c.tops
  }

  // --- Runs --------------------------------------------------------------------------

  ghost predicate Takes(c: Config, m: Tiling, n: Tiling) {
    exists o, k: nat :: Ask(c) <= k <= c.maxO && Best(m, o, k) && n == Taken(m, o, k)
  }

  ghost predicate NodeRun(c: Config, run: seq<Tiling>) {
    && |run| > 0 && run[0] == Initial(c)
    && forall i :: 0 <= i < |run| - 1 ==> Takes(c, run[i], run[i + 1]) || FreeStep(c, run[i], run[i + 1])
  }

  // Some call that can be made now runs out of the count nodes.
  ghost predicate TakeRunsOut(c: Config, count: nat, m: Tiling) {
    exists k: nat :: Ask(c) <= k <= c.maxO && Starves(m, count, k)
  }

  ghost predicate FreeRunsOut(c: Config, count: nat, m: Tiling) {
    exists o :: o in m && m[o].used && |FreeSet(Released(c, m, o))| > count
  }

  ghost predicate RunsOut(c: Config, count: nat, m: Tiling) {
    TakeRunsOut(c, count, m) || FreeRunsOut(c, count, m)
  }

  // Building the chunk does not run out, and no call of any run does.
  ghost predicate NeverRunsOut(c: Config, count: nat) {
    && c.tops <= count
    && forall run {:trigger NodeRun(c, run)} :: NodeRun(c, run) ==> !RunsOut(c, count, run[|run| - 1])
  }

  // --- Enough ------------------------------------------------------------------------

  // Merging does not depend on the lowest order.
  lemma {:induction false} SameCoalesce(c: Config, d: Config, m: Tiling, o: int)
    requires o in m && c.maxO == d.maxO
    ensures Coalesce(c, m, o) == Coalesce(d, m, o)
    decreases c.maxO - m[o].order
  {
    assert FreePair(c, m, o) == FreePair(d, m, o);
    assert FreePair(c, m, LeftOf(m, o)) == FreePair(d, m, LeftOf(m, o));
    if m[o].order < c.maxO {
      if FreePair(c, m, o) {
        SameCoalesce(c, d, Joined(m, o), o);
      } else if JoinsLeft(c, m, o) {
        SameCoalesce(c, d, Joined(m, LeftOf(m, o)), LeftOf(m, o));
      }
    }
  }

  lemma WorkingOk(c: Config)
    requires c.Ok()
    ensures Working(c).Ok() && Initial(Working(c)) == Initial(c) && Working(c).maxO == c.maxO
    ensures Working(c).Half() >= c.tops && (Ask(c) == c.maxO ==> Working(c).Half() == c.tops)
  {
    var d := Working(c);
    MulMono(1, Pow2(d.maxO - 1 - d.minO), c.tops);
    assert c.tops * Pow2(d.maxO - 1 - d.minO) == Pow2(d.maxO - 1 - d.minO) * c.tops;
  }

  lemma {:induction false} NodeRunKeeps(c: Config, run: seq<Tiling>)
    requires c.Ok() && NodeRun(c, run)
    ensures var m := run[|run| - 1]; Tiles(Working(c), m) && Coalesced(Working(c), m)
    decreases |run|
  {
    var d := Working(c);
    WorkingOk(c);
    if |run| == 1 {
      InitialTiles(d);
    } else {
      var p := run[..|run| - 1];
      NodeRunKeeps(c, p);
      var m, n := run[|run| - 2], run[|run| - 2 + 1];
      assert m == p[|p| - 1];
      if Takes(c, m, n) {
        var o, k: nat :| Ask(c) <= k <= c.maxO && Best(m, o, k) && n == Taken(m, o, k);
        TakenKeeps(d, m, o, k);
      } else {
        var o :| o in m && m[o].used && n == Released(c, m, o);
        SameCoalesce(c, d, m[o := Tile(m[o].order, false)], o);
        ReleasedKeeps(d, m, o);
      }
    }
  }

  // Splitting leaves one free block more for every order it goes down.
  lemma {:induction false} SplitAdds(c: Config, m: Tiling, o: int, k: nat)
    requires Tiles(c, m) && CoalescedBut(c, m, o) && o in m && !m[o].used && c.minO <= k <= m[o].order
    ensures var n := SplitDown(m, o, k);
      && Tiles(c, n) && CoalescedBut(c, n, o) && !n[o].used && |FreeSet(n)| == |FreeSet(m)| + m[o].order - k
    decreases m[o].order
  {
    if k < m[o].order {
      HalvedKeeps(c, m, o);
      SplitAdds(c, Halved(m, o), o, k);
    }
  }

  lemma EnoughNow(c: Config, count: nat, m: Tiling)
    requires c.Ok() && Tiles(Working(c), m) && Coalesced(Working(c), m) && count >= Need(c)
    ensures !RunsOut(c, count, m)
  {
    var d := Working(c);
    WorkingOk(c);
    forall k: nat, o | Ask(c) <= k <= c.maxO && Best(m, o, k) && k < m[o].order
      ensures count > |FreeSet(m)| + m[o].order - k
    {
      assert TileAt(d, m, o);
      SplitAdds(d, m, o, k);
      FreeInSplit(d, SplitDown(m, o, k), o);
    }
    forall o | o in m && m[o].used
      ensures |FreeSet(Released(c, m, o))| <= count
    {
      SameCoalesce(c, d, m[o := Tile(m[o].order, false)], o);
      ReleasedKeeps(d, m, o);
      FreeAtMostHalf(d, Released(d, m, o));
    }
  }

  lemma EnoughForEveryRun(c: Config, count: nat)
    requires c.Ok() && count >= Need(c)
    ensures NeverRunsOut(c, count)
  {
    WorkingOk(c);
    forall run | NodeRun(c, run)
      ensures !RunsOut(c, count, run[|run| - 1])
    {
      NodeRunKeeps(c, run);
      EnoughNow(c, count, run[|run| - 1]);
    }
  }

  // --- Not enough ----------------------------------------------------------------------

  lemma OneMoreKey(m: Tiling, o: int, t: Tile)
    requires o !in m
    ensures |m[o := t].Keys| == |m.Keys| + 1
  {
    assert m[o := t].Keys == m.Keys + {o};
  }

  lemma NoKeys(c: Config)
    ensures Initial(Part(c, 0)).Keys == {}
  {
    assert Part(c, 0).size == 0;
  }

  lemma {:induction false} InitialSize(c: Config, i: nat)
    requires c.Ok() && i <= c.tops
    ensures |Initial(Part(c, i)).Keys| == i
    decreases i
  {
    if i == 0 {
      NoKeys(c);
    } else {
      InitialSize(c, i - 1);
      InitialGrows(c, i - 1);
      OneMoreKey(Initial(Part(c, i - 1)), Part(c, i - 1).size, Tile(c.maxO, false));
    }
  }

  // The first allocation of the smallest block needs a node for every block of
  // the new chunk, for every order it splits through, and one more.
  lemma FirstTake(c: Config, count: nat)
    requires c.Ok() && c.tops > 0 && Ask(c) < c.maxO && count <= c.tops + c.maxO - Ask(c)
    ensures Starves(Initial(c), count, Ask(c)) && TakeRunsOut(c, count, Initial(c))
  {
    var m := Initial(c);
    InitialSize(c, c.tops);
    assert Part(c, c.tops) == c;
    ZeroAligned(c.maxO);
    TopPositive(c);
    assert 0 in m && m[0] == Tile(c.maxO, false);
    assert FreeSet(m) == m.Keys;
    assert Short(m, 0, Ask(c), count - |FreeSet(m)|);
    var k: nat := Ask(c);
    assert Starves(m, count, k);
  }

  lemma TopPositive(c: Config)
    requires c.Ok() && c.tops > 0
    ensures c.size > 0
  {
    TimesGrows(0, c.tops, Pow2(c.maxO));
  }

  // Where half of the smallest blocks are fewer than four, the first allocation
  // needs as many nodes as any run does.
  lemma SmallHalf(tops: nat, d: nat, h: nat)
    requires tops >= 1 && d >= 1 && h == tops * Pow2(d - 1) && h < 4
    ensures tops + d == h + 1
  {
    if d == 1 {
    } else if d == 2 {
      assert h == tops * 2;
    } else {
      Pow2Grows(2, d - 1);
      assert Pow2(2) == 4;
      MulMono(1, tops, Pow2(d - 1));
    }
  }

  // Of the nodes that _mmp_init_chunk lays out, those of a nonempty chunk are
  // enough for every run exactly when there are as many as needed.
  lemma NodesExactly(cur: nat, end: nat, c: Config)
    requires cur <= end && c.Ok() && c.tops > 0 && LayoutOf(cur, end, c.minO, c.maxO).Layout?
    requires c.size == LayoutOf(cur, end, c.minO, c.maxO).size
    ensures var count := LayoutOf(cur, end, c.minO, c.maxO).count;
      NeverRunsOut(c, count) <==> count >= Need(c)
    ensures c.minO > 4 ==> Need(c) == c.Half() + 2
  {
    var count := LayoutOf(cur, end, c.minO, c.maxO).count;
    if count >= Need(c) {
      EnoughForEveryRun(c, count);
    } else if Ask(c) < c.maxO {
      EnoughNodes(cur, end, c);
      WorkingHalf(c);
      SmallHalf(c.tops, c.maxO - Ask(c), Working(c).Half());
      FirstTake(c, count);
      var run := [Initial(c)];
      assert NodeRun(c, run) && RunsOut(c, count, run[|run| - 1]);
    }
  }

  lemma WorkingHalf(c: Config)
    requires c.Ok() && c.tops > 0 && Ask(c) < c.maxO
    ensures Working(c).Half() >= 1
    ensures c.Half() == if c.minO == 4 then 2 * Working(c).Half() else Working(c).Half()
  {
    WorkingOk(c);
    if c.minO == 4 {
      assert Pow2(c.maxO - 1 - c.minO) == 2 * Pow2(c.maxO - 1 - Ask(c));
      Twice(c.tops, Pow2(c.maxO - 1 - Ask(c)));
    }
  }

  // Blocks of 16 bytes are never asked for, so half of them is more than needed,
  // in 96 bytes wherever they lie.
  lemma SixteenByteBlocks(cur: nat)
    requires Aligned(cur, 6)
    ensures var c := Config(4, 5, 1, 32);
      && c.Ok() && LayoutOf(cur, cur + 96, 4, 5) == Layout(2, cur + 64, 32)
      && 2 < c.Half() + 2 && NeverRunsOut(c, 2)
  {
    var c := Config(4, 5, 1, 32);
    Powers5();
    assert Pow2(4) == 16 by { assert Pow2(2) == 4; }
    BehindTwo(cur);
    Pow2Aligned(5, 5);
    MaskOf(32, 32, 5);
    EnoughForEveryRun(c, 2);
  }

  // The chunk behind two nodes.
  lemma BehindTwo(cur: nat)
    requires Aligned(cur, 6)
    ensures Mask(cur + 127, 6) == cur + 64
  {
    Powers5();
    Pow2Aligned(6, 6);
    AlignedSum(cur, 64, 6);
    MaskOf(cur + 127, cur + 64, 6);
  }

  // --- A pool that runs out ----------------------------------------------------------------

  const TINY: Config := Config(5, 6, 1, 64)

  lemma TinyDims(cur: nat)
    requires Aligned(cur, 6)
    ensures TINY.Ok() && LayoutOf(cur, cur + 128, 5, 6) == Layout(2, cur + 64, 64)
  {
    Powers5();
    BehindTwo(cur);
    Pow2Aligned(6, 6);
    MaskOf(64, 64, 6);
  }

  lemma TinyRunsOut()
    ensures TINY.Ok() && Need(TINY) == 3 && !NeverRunsOut(TINY, 2) && Starves(Initial(TINY), 2, 5)
  {
    ZeroAligned(6);
    TinyDims(0);
    FirstTake(TINY, 2);
    NodesExactly(0, 128, TINY);
    Powers5();
  }

  // 128 bytes for blocks of 32 to 64 bytes: two nodes, of which three are needed.
  lemma TinyLayout(cur: nat)
    requires Aligned(cur, 6)
    ensures TINY.Ok() && LayoutOf(cur, cur + 128, 5, 6) == Layout(2, cur + 64, 64)
    ensures Need(TINY) == 3 && !NeverRunsOut(TINY, 2) && Starves(Initial(TINY), 2, 5)
  {
    TinyDims(cur);
    TinyRunsOut();
  }

  // Allocating one byte from it follows the null pointer.
  method TinyPool(ghost cur: nat, front: nat, raw: int -> Head) returns (pool: Pool)
    requires Aligned(cur, 6)
    ensures pool.c == TINY && pool.count == LayoutOf(cur, cur + 128, 5, 6).count && pool.starved
  {
    pool := NewTinyPool(cur, front, raw);
    TinyFirst();
    RunShort(pool, 1);
  }

  method RunShort(pool: Pool, payload: nat)
    requires pool.Valid() && payload > 0 && OrderOf(pool.c, payload) != -1
    requires Starves(pool.tiles, pool.count, OrderOf(pool.c, payload))
    modifies pool
    ensures pool.starved
  {
    var p, k := pool.Alloc(payload);
  }

  method NewTinyPool(ghost cur: nat, front: nat, raw: int -> Head) returns (pool: Pool)
    requires Aligned(cur, 6)
    ensures fresh(pool) && pool.Valid() && pool.tiles == Initial(TINY)
    ensures pool.c == TINY && pool.count == 2 == LayoutOf(cur, cur + 128, 5, 6).count
  {
    TinyLayout(cur);
    pool := new Pool(TINY, 2, front, raw);
  }

  lemma TinyFirst()
    ensures OrderOf(TINY, 1) == 5 && Starves(Initial(TINY), 2, 5)
  {
    TinyRunsOut();
    AskIsLeast(TINY, 1);
  }
}
