// What the pool of src/mmpool.c promises: its sizing, and what becomes of a
// block that is merged with itself.
module MmLaws {
  import opened Arith
  import opened Align
  import opened Buddy
  import opened MmIndex
  import opened MmOverlap
  import opened MmPool

  // --- Overlap ---------------------------------------------------------------------

  const FLAW: Config := Config(5, 7, 1, 128)

  // After three allocations of 32-byte blocks, with three of the four quarters
  // of the chunk in use, freeing the first one overlaps the second.
  ghost function FlawedRun(): seq<Tiling> {
    [map[0 := Tile(7, false)],
     map[0 := Tile(5, true), 32 := Tile(5, false), 64 := Tile(6, false)],
     map[0 := Tile(5, true), 32 := Tile(5, true), 64 := Tile(6, false)],
     map[0 := Tile(5, true), 32 := Tile(5, true), 64 := Tile(5, true), 96 := Tile(5, false)]]
  }

  lemma Powers5()
    ensures Pow2(5) == 32 && Pow2(6) == 64 && Pow2(7) == 128
  {
    assert Pow2(2) == 4;
    assert Pow2(4) == 16;
    assert Pow2(6) == 64;
  }

  lemma FlawedStart()
    ensures Initial(FLAW) == FlawedRun()[0] && FLAW.Ok()
  {
    Powers5();
    ZeroAligned(7);
    forall o | 0 < o < 128
      ensures !Aligned(o, 7)
    {
      if Aligned(o, 7) { AlignedGap(0, o, 7); }
    }
  }

  lemma FlawedSteps()
    ensures Taken(FlawedRun()[0], 0, 5) == FlawedRun()[1]
    ensures Taken(FlawedRun()[1], 32, 5) == FlawedRun()[2]
    ensures Taken(FlawedRun()[2], 64, 5) == FlawedRun()[3]
  {
    Powers5();
    var m0, m2 := FlawedRun()[0], FlawedRun()[2];
    assert SplitDown(m0, 0, 5) == SplitDown(Halved(m0, 0), 0, 5) == Halved(Halved(m0, 0), 0);
    assert SplitDown(m2, 64, 5) == Halved(m2, 64);
  }

  lemma OverlapIsReachable()
    ensures Run(FLAW, FlawedRun()) && Doubles(FLAW, FlawedRun()[3], 0)
  {
    Powers5();
    FlawedStart();
    FlawedSteps();
    var r := FlawedRun();
    assert AllocStep(FLAW, r[0], r[1]) && AllocStep(FLAW, r[1], r[2]) && AllocStep(FLAW, r[2], r[3]);
    var m := r[3];
    assert 32 in m && m[32].used && 96 in m && m[96] == Tile(5, false);
    assert DoublesAt(FLAW, m, 0, 5);
  }

  // --- The word in front of the chunk ----------------------------------------------------

  const IDX_OFFSET: nat := 24

  // The halves of _idx, which for list node i is i.
  function IdxHalf(i: nat, high: bool): nat {
    if high then (i / 0x1_0000_0000) % 0x1_0000_0000 else i % 0x1_0000_0000
  }

  // With an even number of list nodes the chunk starts right behind the last
  // one, and the word in front of it is the upper half of that node's number,
  // which is 0.
  lemma FrontIsLastIdx(cur: nat, end: nat, minO: nat, maxO: nat)
    requires cur <= end < cur + 0x1_0000_0000 && Aligned(cur, 6)
    requires LayoutOf(cur, end, minO, maxO).Layout?
    requires LayoutOf(cur, end, minO, maxO).count > 0 && LayoutOf(cur, end, minO, maxO).count % 2 == 0
    ensures var l := LayoutOf(cur, end, minO, maxO);
      && l.chunk - 4 == (cur + (l.count - 1) * NODE_SIZE) + IDX_OFFSET + 4
      && IdxHalf(l.count - 1, true) == 0
  {
    var l := LayoutOf(cur, end, minO, maxO);
    EvenNodes(cur, l.count, l.count / 2);
    FewNodes(l.count, Pow2(minO) + NODE_SIZE, end - cur);
  }

  lemma EvenNodes(cur: nat, n: nat, h: nat)
    requires Aligned(cur, 6) && n == 2 * h
    ensures Mask(cur + n * NODE_SIZE + 63, 6) == cur + n * NODE_SIZE
  {
    Powers5();
    TopAligned(6, h);
    TimesIs(h, 64);
    AlignedSum(cur, h * Pow2(6), 6);
    MaskOf(cur + n * NODE_SIZE + 63, cur + n * NODE_SIZE, 6);
  }

  lemma FewNodes(q: nat, d: nat, t: nat)
    requires q * d <= t && d >= 1
    ensures q <= t
  {
    MulMono(1, d, q);
    assert d * q == q * d;
  }

  // The pool of the flawed run has four nodes, wherever it lies.
  lemma FlawedLayout(cur: nat)
    requires Aligned(cur, 6)
    ensures LayoutOf(cur, cur + 256, 5, 7) == Layout(4, cur + 128, 128)
  {
    Powers5();
    Pow2Aligned(7, 6);
    Pow2Aligned(7, 7);
    AlignedSum(cur, 128, 6);
    MaskOf(cur + 191, cur + 128, 6);
    MaskOf(128, 128, 7);
  }

  lemma SixteenBytes()
    ensures OrderOf(FLAW, 16) == 5
  {
    Powers5();
  }

  lemma FlawedChoices()
    ensures forall x {:trigger Best(FlawedRun()[0], x, 5)} :: Best(FlawedRun()[0], x, 5) <==> x == 0
    ensures forall x {:trigger Best(FlawedRun()[1], x, 5)} :: Best(FlawedRun()[1], x, 5) <==> x == 32
    ensures forall x {:trigger Best(FlawedRun()[2], x, 5)} :: Best(FlawedRun()[2], x, 5) <==> x == 64
    ensures FreeSet(FlawedRun()[0]) == {0} && FreeSet(FlawedRun()[1]) == {32, 64} && FreeSet(FlawedRun()[2]) == {64}
  {
    assert 32 in FreeSet(FlawedRun()[1]);
  }

  ghost function FlawedAt(i: nat): int {
    if i == 0 then 0 else if i == 1 then 32 else 64
  }

  lemma FlawedNext(i: nat)
    requires i < 3
    ensures var m, o := FlawedRun()[i], FlawedAt(i);
      && Best(m, o, 5) && Taken(m, o, 5) == FlawedRun()[i + 1] && |FreeSet(m)| + m[o].order - 5 < 4
      && forall x {:trigger Best(m, x, 5)} :: Best(m, x, 5) ==> x == o
  {
    FlawedSteps();
    FlawedChoices();
  }

  ghost predicate OnRun(pool: Pool, i: nat)
    reads pool
  {
    pool.Valid() && pool.c == FLAW && pool.count == 4 && pool.front == 0 && i < 4 && pool.tiles == FlawedRun()[i]
  }

  // One allocation of 16 bytes along the run.
  method AllocNext(pool: Pool, ghost i: nat) returns (p: int)
    requires OnRun(pool, i) && i < 3
    modifies pool
    ensures OnRun(pool, i + 1) && p == FlawedAt(i) + HEAD_SIZE
  {
    Powers5();
    SixteenBytes();
    FlawedNext(i);
    ghost var m := pool.tiles;
    assert FlawedAt(i) in FreeSet(m);
    Powers(m[FlawedAt(i)].order, 5);
    ghost var k;
    p, k := pool.Alloc(16);
  }

  method NewOnRun(raw: int -> Head) returns (pool: Pool)
    ensures fresh(pool) && OnRun(pool, 0)
  {
    FlawedStart();
    pool := new Pool(FLAW, 4, 0, raw);
  }

  // Three allocations of 16 bytes in such a pool.
  method FlawedPool(raw: int -> Head) returns (pool: Pool, p: int)
    ensures fresh(pool) && OnRun(pool, 3) && p == FlawedAt(0) + HEAD_SIZE
  {
    pool := NewOnRun(raw);
    p := AllocNext(pool, 0);
    var i := 1;
    while i < 3
      invariant 1 <= i <= 3 && fresh(pool) && OnRun(pool, i)
    {
      var q := AllocNext(pool, i);
      i := i + 1;
    }
  }

  // The first one is freed: the block of 32 bytes at the start is doubled over
  // the second one.
  method OverlapHappens(raw: int -> Head) returns (pool: Pool, r: FreeResult)
    ensures pool.c == FLAW && pool.count == 4 && pool.front == 0
    ensures r == Overlapped && 0 in pool.heads && pool.heads[0].size == 64
    ensures 32 in pool.tiles && pool.tiles[32].used
  {
    var p;
    pool, p := FlawedPool(raw);
    FlawedFree();
    assert HeadAt(pool.M(), pool.tiles, 0);
    r := pool.Free(p);
  }

  lemma FlawedFree()
    ensures var m := FlawedRun()[3];
      && 0 in UsedSet(m) && Doubles(FLAW, m, 0) && FlawedAt(0) == 0
      && Released(FLAW, m, 0) == m[0 := Tile(5, false)] && Pow2(6) == 64
  {
    Powers5();
    OverlapIsReachable();
    var m := FlawedRun()[3][0 := Tile(5, false)];
    assert !FreePair(FLAW, m, 0) && !JoinsLeft(FLAW, m, 0);
  }

  // --- Sizing --------------------------------------------------------------------------

  const NODE_SIZE: nat := 32

  // How _mmp_init_chunk divides the memory from cur to end: the number of list
  // nodes, the start of the chunk and its size.
  datatype Layout = Layout(count: nat, chunk: int, size: int) | NoRoom

  function Floor(t: nat, d: nat): (q: nat)
    requires d > 0
    ensures q * d <= t < q * d + d
  {
    t / d
  }

  function LayoutOf(cur: nat, end: nat, minO: nat, maxO: nat): Layout
    requires cur <= end
  {
    Placed(cur, end, Floor(end - cur, Pow2(minO) + NODE_SIZE), maxO)
  }

  function Placed(cur: nat, end: nat, count: nat, maxO: nat): Layout {
    var chunk := Mask(cur + count * NODE_SIZE + 63, 6);
    if chunk >= end then NoRoom else Layout(count, chunk, Mask(end - chunk, maxO))
  }

  // As many nodes of 32 bytes as fit together with a smallest block each.
  lemma NodesAreMost(cur: nat, end: nat, minO: nat, maxO: nat)
    requires cur <= end && LayoutOf(cur, end, minO, maxO).Layout?
    ensures var n := LayoutOf(cur, end, minO, maxO).count;
      n * (Pow2(minO) + 32) <= end - cur < (n + 1) * (Pow2(minO) + 32)
  {
    OneMore(LayoutOf(cur, end, minO, maxO).count + 1, Pow2(minO) + NODE_SIZE);
  }

  // The chunk at the least multiple of 64 behind them, and as many of the largest blocks as fit.
  lemma LayoutIsGreatest(cur: nat, end: nat, minO: nat, maxO: nat, y: int)
    requires cur <= end
    ensures var n, l := Floor(end - cur, Pow2(minO) + 32), LayoutOf(cur, end, minO, maxO);
      Greatest(cur, end, n, maxO, l, y)
  {
    PlacedIsGreatest(cur, end, Floor(end - cur, Pow2(minO) + NODE_SIZE), maxO, y);
  }

  predicate Greatest(cur: nat, end: nat, n: nat, maxO: nat, l: Layout, y: int) {
    && (l.NoRoom? <==> end <= RoundUp(cur + n * 32, 6))
    && (l.Layout? ==>
          && l.count == n && Aligned(l.chunk, 6) && cur + n * 32 <= l.chunk < cur + n * 32 + 64
          && (Aligned(y, 6) && cur + n * 32 <= y ==> l.chunk <= y)
          && Aligned(l.size, maxO) && l.chunk + l.size <= end < l.chunk + l.size + Pow2(maxO))
  }

  lemma PlacedIsGreatest(cur: nat, end: nat, n: nat, maxO: nat, y: int)
    ensures Greatest(cur, end, n, maxO, Placed(cur, end, n, maxO), y)
  {
    ChunkBehind(cur, end, n, maxO, y);
  }

  lemma ChunkBehind(cur: nat, end: nat, n: nat, maxO: nat, y: int)
    ensures var chunk := RoundUp(cur + n * NODE_SIZE, 6);
      var size := Mask(end - chunk, maxO);
      && Mask(cur + n * NODE_SIZE + 63, 6) == chunk
      && Aligned(chunk, 6) && cur + n * 32 <= chunk < cur + n * 32 + 64
      && (Aligned(y, 6) && cur + n * 32 <= y ==> chunk <= y)
      && Aligned(size, maxO) && chunk + size <= end < chunk + size + Pow2(maxO)
  {
    Powers5();
    RoundUpIsLeast(cur + n * NODE_SIZE, y, 6);
    MaskIsFloor(end - RoundUp(cur + n * NODE_SIZE, 6), maxO);
  }

  lemma LayoutIsConfig(cur: nat, end: nat, minO: nat, maxO: nat) returns (c: Config)
    requires cur <= end && 4 <= minO < maxO && LayoutOf(cur, end, minO, maxO).Layout?
    ensures c.Ok() && c.minO == minO && c.maxO == maxO && c.size == LayoutOf(cur, end, minO, maxO).size
    ensures var l := LayoutOf(cur, end, minO, maxO);
      cur + l.count * NODE_SIZE <= l.chunk && l.chunk + l.size <= end
  {
    var l := LayoutOf(cur, end, minO, maxO);
    MaskIsFloor(cur + l.count * NODE_SIZE + 63, 6);
    assert Pow2(6) == 64 by { Powers5(); }
    MaskIsFloor(end - l.chunk, maxO);
    ZeroAligned(maxO);
    if l.size < 0 { AlignedGap(l.size, 0, maxO); }
    var tops := TopIndex(l.size, maxO);
    c := Config(minO, maxO, tops, l.size);
  }

  // The nodes are enough for every run once the chunk has eight of the smallest blocks.
  lemma EnoughNodes(cur: nat, end: nat, c: Config)
    requires cur <= end && c.Ok() && LayoutOf(cur, end, c.minO, c.maxO).Layout?
    requires c.size == LayoutOf(cur, end, c.minO, c.maxO).size
    ensures c.size == 2 * c.Half() * Pow2(c.minO)
    ensures LayoutOf(cur, end, c.minO, c.maxO).count >= 2 * c.Half() - 2
    ensures c.Half() >= 4 ==> LayoutOf(cur, end, c.minO, c.maxO).count >= c.Half() + 2
  {
    var l, n, N := LayoutOf(cur, end, c.minO, c.maxO), Pow2(c.minO), 2 * c.Half();
    var d := LayoutIsConfig(cur, end, c.minO, c.maxO);
    Blocks(c);
    Pow2Grows(4, c.minO);
    assert Pow2(4) == 16 by { assert Pow2(2) == 4; }
    Cancel(l.count, N, n);
  }

  lemma Cancel(f: nat, N: nat, n: nat)
    requires N * n + f * NODE_SIZE < f * (n + NODE_SIZE) + (n + NODE_SIZE) && n >= 16
    ensures f >= N - 2
  {
    assert f * (n + NODE_SIZE) == f * n + f * NODE_SIZE;
    assert N * n < f * n + 3 * n == (f + 3) * n;
    if f + 3 <= N { MulMono(f + 3, N, n); }
  }

  lemma Blocks(c: Config)
    requires c.Ok()
    ensures c.size == 2 * c.Half() * Pow2(c.minO)
  {
    var h := Pow2(c.maxO - 1 - c.minO);
    Pow2Adds(c.minO, c.maxO - 1 - c.minO);
    Pow2Adds(c.maxO - 1, 1);
    TimesIs(c.tops, Pow2(c.maxO));
    Regroup(c.tops, Pow2(c.minO), h);
  }

  lemma Regroup(t: nat, a: nat, h: nat)
    ensures t * (2 * (a * h)) == 2 * (t * h) * a
  {
  }
}
