// The buddy allocator of src/mmpool.c.
module MmPool {
  import opened Arith
  import opened Align
  import opened Buddy
  import opened Lists
  import opened MmIndex
  import opened MmSteps
  import opened MmOverlap

  const HEAD_SIZE: nat := 8
  const HEAD_TAIL_SIZE: nat := 16

  // _flh_idx
  function FlhIdx(c: Config, payload: nat): int {
    IdxOfSize(c, RoundUp2Power(payload + HEAD_TAIL_SIZE))
  }

  function IdxOfSize(c: Config, size: nat): int {
    if size > Pow2(c.maxO) then -1
    else Log2(if size < Pow2(c.minO) then Pow2(c.minO) else size) - c.minO
  }

  lemma IdxOfPower(c: Config, j: nat)
    requires c.minO < c.maxO
    ensures IdxOfSize(c, Pow2(j)) == if c.maxO < j then -1 else if j < c.minO then 0 else j - c.minO
  {
    Powers(c.maxO, j);
    Powers(j, c.minO);
    Log2Unique(Pow2(c.minO), c.minO);
    Log2Unique(Pow2(j), j);
  }

  lemma RoundedTo(v: nat) returns (j: nat)
    requires v >= 2
    ensures RoundUp2Power(v) == Pow2(j) && v <= Pow2(j) && forall i: nat :: i < j ==> Pow2(i) < v
  {
    LeastOrder(v);
    j := Log2(RoundUp2Power(v));
  }

  // The order of the rounded size, which decides.
  lemma RoundedOrder(c: Config, payload: nat) returns (j: nat)
    requires c.minO < c.maxO
    ensures FlhIdx(c, payload) == if c.maxO < j then -1 else if j < c.minO then 0 else j - c.minO
    ensures payload + 16 <= Pow2(j) && forall i: nat :: i < j ==> Pow2(i) < payload + 16
  {
    j := RoundedTo(payload + HEAD_TAIL_SIZE);
    IdxOfPower(c, j);
  }

  // It is the list of the lowest order that fits head, payload and tail.
  lemma FlhIdxIsLeast(c: Config, payload: nat)
    requires c.minO < c.maxO
    ensures var idx := FlhIdx(c, payload);
      && (idx == -1 <==> payload + 16 > Pow2(c.maxO))
      && (idx != -1 ==> 0 <= idx <= c.maxO - c.minO && payload + 16 <= Pow2(c.minO + idx))
      && (forall k: nat :: c.minO <= k < c.minO + idx ==> Pow2(k) < payload + 16)
  {
    FlhIdxFits(c, payload);
    FittingIsLeast(c, c.minO, payload + 16);
  }

  // The least order from k on whose blocks have need bytes, or -1.
  ghost function Fitting(c: Config, k: nat, need: nat): int
    decreases c.maxO + 1 - k
  {
    if k > c.maxO then -1 else if need <= Pow2(k) then k else Fitting(c, k + 1, need)
  }

  lemma {:induction false} FittingIs(c: Config, k: nat, need: nat, j: int)
    requires k <= c.maxO + 1
    requires if j == -1 then need > Pow2(c.maxO) else k <= j <= c.maxO && need <= Pow2(j)
    requires j != -1 ==> forall i: nat :: k <= i < j ==> Pow2(i) < need
    ensures Fitting(c, k, need) == j
    decreases c.maxO + 1 - k
  {
    if k <= c.maxO && k != j {
      Powers(c.maxO, k);
      FittingIs(c, k + 1, need, j);
    }
  }

  // The order of the blocks that a payload asks for, or -1.
  ghost function OrderOf(c: Config, payload: nat): int {
    Fitting(c, c.minO, payload + 16)
  }

  lemma OrderOfIs(c: Config, need: nat, j: nat)
    requires c.minO < c.maxO && need <= Pow2(j) && forall i: nat :: i < j ==> Pow2(i) < need
    ensures Fitting(c, c.minO, need) == if c.maxO < j then -1 else if j < c.minO then c.minO else j
  {
    if j < c.minO { Powers(j, c.minO); }
    FittingIs(c, c.minO, need, if c.maxO < j then -1 else if j < c.minO then c.minO else j);
  }

  // _flh_idx finds its list.
  lemma FlhIdxFits(c: Config, payload: nat)
    requires c.minO < c.maxO
    ensures OrderOf(c, payload) == if FlhIdx(c, payload) == -1 then -1 else c.minO + FlhIdx(c, payload)
  {
    var j := RoundedOrder(c, payload);
    OrderOfIs(c, payload + 16, j);
  }

  lemma OrderIsLeast(c: Config, payload: nat, k: int)
    requires c.minO < c.maxO && k == OrderOf(c, payload)
    ensures k == -1 <==> payload + 16 > Pow2(c.maxO)
    ensures k != -1 ==> c.minO <= k <= c.maxO && payload + 16 <= Pow2(k)
    ensures forall i: nat :: c.minO <= i < k ==> Pow2(i) < payload + 16
  {
    FittingIsLeast(c, c.minO, payload + 16);
  }

  lemma {:induction false} FittingIsLeast(c: Config, k: nat, need: nat)
    ensures var j := Fitting(c, k, need);
      && (j == -1 <==> k > c.maxO || need > Pow2(c.maxO))
      && (j != -1 ==> k <= j <= c.maxO && need <= Pow2(j))
      && (forall i: nat :: k <= i < j ==> Pow2(i) < need)
    decreases c.maxO + 1 - k
  {
    if k <= c.maxO {
      Powers(c.maxO, k);
      FittingIsLeast(c, k + 1, need);
    }
  }

  // The free block o is the best fit for order k.
  ghost predicate Best(m: Tiling, o: int, k: int) {
    && o in m && !m[o].used && k <= m[o].order
    && forall x :: x in FreeSet(m) && k <= m[x].order ==> m[o].order <= m[x].order
  }

  // What happens when mmp_free is called. Overlapped: the block at the start
  // of the chunk took itself for its own left buddy and was doubled.
  datatype FreeResult = Freed | Refused | Overlapped | Starved

  // Splitting o down to order k asks for more list nodes than are spare: one
  // for every right half, one for the left half at the end.
  ghost predicate Short(m: Tiling, o: int, k: int, spare: int) {
    Best(m, o, k) && k < m[o].order && spare <= m[o].order - k
  }

  ghost predicate SomeShort(m: Tiling, k: int, spare: int) {
    exists o :: Short(m, o, k, spare)
  }

  // An allocation of order k runs out of the count list nodes.
  ghost predicate Starves(m: Tiling, count: nat, k: int) {
    SomeShort(m, k, count - |FreeSet(m)|)
  }

  class Pool {
    const c: Config
    // _fln_count
    const count: nat
    // The word in front of the chunk, which the code reads as a block size.
    const front: nat
    // What the memory held before the pool wrote any block there.
    const raw: int -> Head

    var heads: map<int, Head>
    var tails: map<int, nat>
    var block: seq<int>
    var lists: seq<seq<nat>>
    var spare: seq<nat>
    // A list node was asked for when none was spare: the code then writes
    // through a null pointer, and nothing more is said of the pool.
    var starved: bool
    ghost var tiles: Tiling

    ghost function M(): Mem
      reads `heads, `tails
    {
      Mem(heads, tails)
    }

    ghost function X(): Index
      reads `block, `lists, `spare
    {
      Index(block, lists, spare)
    }

    // _mmp_init_chunk, once it has laid out count list nodes and the chunk.
    constructor (c: Config, count: nat, front: nat, raw: int -> Head)
      requires c.Ok()
      ensures starved <==> count < c.tops
      ensures !starved ==> Valid() && tiles == Initial(c)
      ensures this.c == c && this.front == front && this.raw == raw && this.count == count
    {
      this.c, this.count, this.front, this.raw, starved := c, count, front, raw, false;
      heads, tails := map[], map[];
      block, spare := seq(count, _ => -1), seq(count, i => i);
      lists := seq(c.maxO - c.minO + 1, _ => []);
      tiles := map[];
      new;
      FitsEmpty();
      InitChunk();
      if !starved { AllBuilt(); }
      tiles := Initial(c);
    }

    // The memory agrees with the tiling by the first i blocks of the highest order.
    ghost predicate Partial(i: nat)
      reads this
    {
      && c.Ok() && i <= c.tops && |block| == count && |spare| == count - i && !starved
      && |lists| == c.maxO - c.minO + 1
      && forall m :: m == Initial(Part(c, i)) ==> Prefix(c, M(), X(), m, i)
    }

    lemma FitsEmpty()
      requires c.Ok() && !starved && heads == map[] && tails == map[]
      requires block == seq(count, _ => -1) && spare == seq(count, i => i)
      requires lists == seq(c.maxO - c.minO + 1, _ => [])
      ensures Partial(0)
    {
      var m := Initial(Part(c, 0));
      assert Part(c, 0).size == 0 && Part(c, 0).Half() == 0 && m == map[];
      assert FreeSet(m) - {} == {};
      forall f: nat
        ensures NodeAt(M(), X(), m, {}, -1, f)
      {
        if f < count { assert spare[f] == f; }
      }
      assert Prefix(c, M(), X(), m, 0);
    }

    lemma AllBuilt()
      requires Partial(c.tops)
      ensures Fits(c, M(), X(), Initial(c), -1, {}, -1) && Coalesced(c, Initial(c))
    {
      assert Part(c, c.tops) == c;
      assert Prefix(c, M(), X(), Initial(c), c.tops);
      InitialTiles(c);
    }

    method InitBlock(ghost i: nat, o: int, size: nat)
      requires Partial(i) && o == Part(c, i).size && size == Pow2(c.maxO) && o + size <= c.size
      modifies this
      ensures i < c.tops && Part(c, i + 1).size == o + size
      ensures starved <==> i >= count
      ensures !starved ==> Partial(i + 1)
    {
      NextTop(i);
      BlockFits(i, o, size);
      MakeAndList(o, size, c.maxO);
    }

    lemma BlockFits(i: nat, o: int, size: nat)
      requires Partial(i) && i < c.tops && o == Part(c, i).size && size == Pow2(c.maxO)
      ensures |lists| == c.maxO - c.minO + 1 && c.minO < c.maxO && (spare != [] ==> spare[0] < |block|)
      ensures spare != [] ==>
        var mem, ix := WithFln(Made(M(), o, size, raw(o).fln), o, spare[0]), Pushed(X(), c.maxO - c.minO, o);
        Prefix(c, mem, ix, Initial(Part(c, i + 1)), i + 1)
    {
      var m := Initial(Part(c, i));
      assert Prefix(c, M(), X(), m, i);
      if spare != [] { TopFits(c, M(), X(), m, i, raw(o).fln); }
    }

    // _block_size_by_idx
    method BlockSizeByIdx(idx: nat) returns (size: nat)
      ensures size == Pow2(c.minO + idx)
    {
      Pow2Adds(c.minO, idx);
      size := Pow2(c.minO) * Pow2(idx);
    }

    // The loops that fill the chunk from its start, the largest blocks first.
    method InitChunk()
      requires Partial(0)
      modifies this
      ensures starved <==> count < c.tops
      ensures !starved ==> Partial(c.tops)
    {
      var end, chk1, chk2 := c.size, 0, 0;
      var idx := |lists| - 1;
      ghost var i := 0;
      while idx > 0 && chk1 < end && chk2 < end
        invariant Partial(i) && chk1 == Part(c, i).size
        invariant i == c.tops || (i == 0 && chk2 == 0 && idx == c.maxO - c.minO)
        decreases idx
      {
        var size := BlockSizeByIdx(idx);
        chk2 := chk1 + size;
        while chk2 <= end
          invariant Partial(i) && chk1 == Part(c, i).size
          invariant chk2 == chk1 + size
          decreases c.tops - i
        {
          InitBlock(i, chk1, size);
          if starved { return; }
          chk1 := chk2;
          chk2 := chk1 + size;
          i := i + 1;
        }
        FullAt(i);
        idx := idx / 2;
      }
      FullAt(i);
    }

    lemma NextTop(i: nat)
      requires c.Ok() && i <= c.tops && Part(c, i).size + Pow2(c.maxO) <= c.size
      ensures i < c.tops && Part(c, i + 1).size == Part(c, i).size + Pow2(c.maxO)
    {
      TopBelow(i, c.tops, Pow2(c.maxO));
    }

    lemma FullAt(i: nat)
      requires c.Ok() && i <= c.tops
      ensures Part(c, i).size + Pow2(c.maxO) > c.size ==> i == c.tops && Part(c, i).size == c.size
      ensures Part(c, i).size >= c.size ==> i == c.tops
    {
      if i < c.tops { PartGrows(c, i); }
    }

    // Heads, lists and tiling agree, except for the block being rewritten,
    // the blocks in B that no list holds, and the node held outside all lists.
    ghost predicate FitsBut(x: int, B: set<int>, held: int)
      reads this
    {
      Fits(c, M(), X(), tiles, x, B, held) && |block| == count && !starved
    }

    ghost predicate Valid()
      reads this
    {
      FitsBut(-1, {}, -1) && Coalesced(c, tiles)
    }

    function HeadOf(o: int): Head
      reads `heads
    {
      if o in heads then heads[o] else raw(o)
    }

    // _next_block
    function NextBlock(o: int): int
      reads `heads
    {
      o + HeadOf(o).size
    }

    // _prev_block
    function PrevBlock(o: int): int
      requires o == 0 || o in tails
      reads `tails
    {
      o - if o == 0 then front else tails[o]
    }

    // _make_block
    method MakeBlock(o: int, size: nat, ghost k: nat)
      requires size == Pow2(k) && k > 0
      modifies `heads, `tails
      ensures M() == Made(old(M()), o, size, raw(o).fln)
    {
      Is2PowerIffPower(size);
      if Is2Power(size) {
        heads, tails := heads[o := Head(false, HeadOf(o).fln, size)], tails[o + size := size];
      }
    }

    // _fetch_free_fln
    method FetchFln() returns (f: nat)
      requires !starved && (spare != [] ==> spare[0] < |block|)
      modifies `block, `spare, `starved
      ensures starved <==> old(spare) == []
      ensures !starved ==> f == old(spare[0]) && spare == old(spare)[1..] && block == old(block)[f := -1]
    {
      if spare == [] {
        starved := true;
        return 0;
      }
      f := spare[0];
      spare, block := spare[1..], block[f := -1];
    }

    // _return_free_fln
    method ReturnFln(f: nat)
      requires f < |block|
      modifies `block, `spare
      ensures X() == Returned(old(X()), f)
    {
      block, spare := block[f := -1], [f] + spare;
    }

    // _return_free_node_to_head
    method ReturnToHead(o: int, ghost k: nat) returns (rslt: int)
      requires o in heads && !heads[o].used && heads[o].size == Pow2(k) && c.minO <= k <= c.maxO
      requires |lists| == c.maxO - c.minO + 1 && !starved && (spare != [] ==> spare[0] < |block|)
      modifies `heads, `block, `lists, `spare, `starved
      ensures starved <==> old(spare) == []
      ensures !starved ==> rslt == 0
      ensures !starved ==> M() == WithFln(old(M()), o, old(spare[0])) && X() == Pushed(old(X()), k - c.minO, o)
    {
      Powers(c.maxO, k);
      Log2Unique(Pow2(k), k);
      if heads[o].used { return -1; }
      if heads[o].size > Pow2(c.maxO) { return -1; }
      var idx := Log2(heads[o].size) - c.minO;
      var f := FetchFln();
      if starved { return -1; }
      block := block[f := o];
      heads := heads[o := heads[o].(fln := f)];
      lists := lists[idx := [f] + lists[idx]];
      return 0;
    }

    // _unlink_block
    method UnlinkBlock(o: int, ghost k: nat) returns (rslt: int)
      requires o in heads && heads[o].size == Pow2(k) && c.minO <= k <= c.maxO
      requires |lists| == c.maxO - c.minO + 1 && heads[o].fln < |block|
      modifies `heads, `block, `lists, `spare
      ensures rslt == if old(lists[k - c.minO]) == [] then -1 else 0
      ensures rslt == -1 ==> M() == old(M()) && X() == old(X())
      ensures rslt == 0 ==> M() == WithFln(old(M()), o, 0)
      ensures rslt == 0 ==> X() == Unlinked(old(X()), k - c.minO, old(heads[o].fln))
    {
      Log2Unique(Pow2(k), k);
      var f := heads[o].fln;
      var idx := Log2(heads[o].size) - c.minO;
      if lists[idx] == [] { return -1; }
      lists := lists[idx := Minus(lists[idx], f)];
      heads := heads[o := heads[o].(fln := 0)];
      ReturnFln(f);
      return 0;
    }

    // The search of _take_free_node: the first list from idx on that is not empty.
    method FirstNonEmpty(idx: nat) returns (i: nat)
      requires idx <= |lists|
      ensures idx <= i <= |lists| && (i < |lists| ==> lists[i] != [])
      ensures forall j :: idx <= j < i ==> lists[j] == []
    {
      i := idx;
      while i < |lists| && lists[i] == []
        invariant idx <= i <= |lists|
        invariant forall j :: idx <= j < i ==> lists[j] == []
      {
        i := i + 1;
      }
    }

    method MakeAndList(o: int, size: nat, ghost k: nat)
      requires size == Pow2(k) && 0 < k && c.minO <= k <= c.maxO
      requires |lists| == c.maxO - c.minO + 1 && !starved && (spare != [] ==> spare[0] < |block|)
      modifies `heads, `tails, `block, `lists, `spare, `starved
      ensures starved <==> old(spare) == []
      ensures !starved ==> M() == WithFln(Made(old(M()), o, size, raw(o).fln), o, old(spare[0]))
      ensures !starved ==> X() == Pushed(old(X()), k - c.minO, o)
    {
      MakeBlock(o, size, k);
      var rslt := ReturnToHead(o, k);
    }

    // The split loop holds node f, which still stands for the block at o.
    ghost predicate Splitting(o: int, f: nat)
      reads this
    {
      FitsBut(o, {o}, f) && CoalescedBut(c, tiles, o) && o in tiles && !tiles[o].used
    }

    // One step of the split: the right half becomes a block and is listed.
    method SplitStep(o: int, size: nat, ghost f: nat)
      requires Splitting(o, f) && c.minO < tiles[o].order && size == Pow2(tiles[o].order - 1)
      modifies this
      ensures starved <==> old(spare) == []
      ensures !starved ==> tiles == Halved(old(tiles), o) && Splitting(o, f) && |spare| == |old(spare)| - 1
    {
      ghost var k, n := tiles[o].order - 1, Halved(tiles, o);
      SplitFitsHere(o, size, k, n, f);
      MakeAndList(o + size, size, k);
      tiles := n;
    }

    lemma SplitFitsHere(o: int, size: nat, k: nat, n: Tiling, f: nat)
      requires Splitting(o, f) && c.minO < tiles[o].order && k == tiles[o].order - 1 && size == Pow2(k)
      requires n == Halved(tiles, o)
      ensures c.minO <= k <= c.maxO && |lists| == c.maxO - c.minO + 1 && (spare != [] ==> spare[0] < |block|)
      ensures spare != [] ==> CoalescedBut(c, n, o) && o in n && !n[o].used
      ensures spare != [] ==>
        Fits(c, WithFln(Made(M(), o + size, size, raw(o + size).fln), o + size, spare[0]),
             Pushed(X(), k - c.minO, o + size), n, o, {o}, f)
    {
      assert TileAt(c, tiles, o);
      if spare != [] { SplitFits(c, M(), X(), tiles, o, f, raw(o + size).fln); }
    }

    method SplitHalves(o: int, idx: nat, i: nat, size0: nat, ghost f: nat) returns (size: nat)
      requires Splitting(o, f) && idx < i && tiles[o].order == c.minO + i && size0 == Pow2(tiles[o].order)
      modifies this
      ensures starved <==> |old(spare)| < i - idx
      ensures !starved ==> Splitting(o, f) && tiles[o].order == c.minO + idx && size == Pow2(tiles[o].order)
      ensures !starved ==> tiles == SplitDown(old(tiles), o, c.minO + idx) && |spare| == |old(spare)| - (i - idx)
    {
      size := size0;
      var j := 0;
      while j < i - idx
        invariant 0 <= j <= i - idx && |spare| == |old(spare)| - j
        invariant Splitting(o, f) && tiles[o].order == c.minO + i - j && size == Pow2(tiles[o].order)
        invariant SplitDown(tiles, o, c.minO + idx) == SplitDown(old(tiles), o, c.minO + idx)
      {
        size := size / 2;
        SplitStep(o, size, f);
        if starved { return; }
        j := j + 1;
      }
    }

    // Block o comes first in the list of its order.
    ghost predicate Leads(o: int)
      reads `lists, `block, `tiles
    {
      o in tiles && FirstIs(tiles[o].order - c.minO, o)
    }

    ghost predicate FirstIs(idx: int, o: int)
      reads `lists, `block
    {
      0 <= idx < |lists| && lists[idx] != [] && lists[idx][0] < |block| && block[lists[idx][0]] == o
    }

    // The end of the split: the left half is listed last, in front, and the
    // held node goes back to the spare ones.
    method ListLeftHalf(o: int, size: nat, f: nat)
      requires Splitting(o, f) && size == Pow2(tiles[o].order)
      modifies `heads, `tails, `block, `lists, `spare, `starved
      ensures starved <==> old(spare) == []
      ensures !starved ==> FitsBut(-1, {}, -1) && o in tiles && FirstIs(tiles[o].order - c.minO, o)
    {
      ghost var k := tiles[o].order;
      LeftHalfFitsHere(o, size, k, f);
      MakeAndList(o, size, k);
      if starved { return; }
      assert FirstIs(k - c.minO, o) && lists[k - c.minO][0] != f;
      ReturnFln(f);
    }

    lemma LeftHalfFitsHere(o: int, size: nat, k: nat, f: nat)
      requires Splitting(o, f) && k == tiles[o].order && size == Pow2(k)
      ensures 0 < k && c.minO <= k <= c.maxO && |lists| == c.maxO - c.minO + 1 && (spare != [] ==> spare[0] < |block|)
      ensures spare != [] ==> spare[0] != f
      ensures spare != [] ==>
        var ix := Pushed(X(), k - c.minO, o);
        && f < |ix.block| && |ix.block| == |block|
        && Fits(c, WithFln(Made(M(), o, size, raw(o).fln), o, spare[0]), Returned(ix, f), tiles, -1, {}, -1)
    {
      assert TileAt(c, tiles, o);
      if spare != [] { LeftHalfFits(c, M(), X(), tiles, o, f, raw(o).fln); }
    }

    method PopList(i: nat) returns (f: nat)
      requires i < |lists| && lists[i] != []
      modifies `lists
      ensures X() == Popped(old(X()), i) && f == old(lists[i][0])
    {
      f := lists[i][0];
      lists := lists[i := lists[i][1..]];
    }

    // No list from idx on holds a block: no free block is large enough.
    lemma NothingFits(idx: nat)
      requires FitsBut(-1, {}, -1) && idx < |lists| && forall j :: idx <= j < |lists| ==> lists[j] == []
      ensures forall o :: o in FreeSet(tiles) ==> tiles[o].order < c.minO + idx
    {
      forall o | o in FreeSet(tiles)
        ensures tiles[o].order < c.minO + idx
      {
        assert o in FreeSet(tiles) - {} && IndexedAt(c, M(), X(), tiles, o);
      }
    }

    // The first block of the first list that is not empty fits best.
    lemma BestFit(idx: nat, i: nat)
      requires FitsBut(-1, {}, -1) && idx <= i < |lists| && forall j :: idx <= j < i ==> lists[j] == []
      ensures forall o :: o in FreeSet(tiles) && c.minO + idx <= tiles[o].order ==> c.minO + i <= tiles[o].order
    {
      forall o | o in FreeSet(tiles) && c.minO + idx <= tiles[o].order
        ensures c.minO + i <= tiles[o].order
      {
        assert o in FreeSet(tiles) - {} && IndexedAt(c, M(), X(), tiles, o);
      }
    }

    // Taking the node of block o off its list.
    method PopBlock(i: nat) returns (f: nat, o: int)
      requires FitsBut(-1, {}, -1) && i < |lists| && lists[i] != []
      modifies `lists
      ensures old(FirstIs(i, o)) && old(Leads(o))
      ensures FitsBut(-1, {o}, f) && o in tiles && tiles[o] == Tile(c.minO + i, false) && HeadAt(M(), tiles, o)
    {
      PopKeeps(c, M(), X(), tiles, i);
      f := PopList(i);
      o := block[f];
      assert TileAt(c, tiles, o) && HeadAt(M(), tiles, o);
    }

    // The end of _take_free_node when the block needs no split.
    method HandOut(o: int, f: nat)
      requires FitsBut(-1, {o}, f) && o in tiles && !tiles[o].used && o in heads
      modifies `heads, `block, `spare
      ensures FitsBut(-1, {o}, -1) && o in heads && heads[o].fln == 0
    {
      TakenFits(c, M(), X(), tiles, o, f);
      heads := heads[o := heads[o].(fln := 0)];
      ReturnFln(f);
    }

    // The end of _take_free_node when the block is too large.
    method SplitTaken(o: int, idx: nat, i: nat, f: nat)
      requires FitsBut(-1, {o}, f) && Coalesced(c, tiles) && idx < i
      requires o in tiles && tiles[o] == Tile(c.minO + i, false) && HeadAt(M(), tiles, o)
      modifies this
      ensures starved <==> |old(spare)| <= i - idx
      ensures !starved ==> FitsBut(-1, {}, -1) && tiles == SplitDown(old(tiles), o, c.minO + idx)
      ensures !starved ==> CoalescedBut(c, tiles, o) && o in tiles && FirstIs(idx, o)
    {
      assert Splitting(o, f);
      var size := SplitHalves(o, idx, i, heads[o].size, f);
      if starved { return; }
      ListLeftHalf(o, size, f);
    }

    // _take_free_node: a block of list idx, or no block (-1) after a larger
    // one was split; the block looked at is o.
    method TakeFreeNode(idx: nat) returns (rslt: int, bh: int, ghost o: int)
      requires FitsBut(-1, {}, -1) && idx < |lists| && (lists[idx] == [] ==> Coalesced(c, tiles))
      modifies this
      ensures starved ==> rslt == 0 && bh == -1 && old(lists[idx]) == []
      ensures rslt == -1 ==> tiles == old(tiles) && M() == old(M()) && X() == old(X()) && bh == -1
      ensures rslt == -1 ==> lists[idx] == [] && forall x :: x in FreeSet(tiles) ==> tiles[x].order < c.minO + idx
      ensures rslt != -1 ==> rslt == 0 && Best(old(tiles), o, c.minO + idx)
      ensures rslt != -1 ==> old(Leads(o))
      ensures rslt == 0 ==> (bh == -1 <==> old(lists[idx]) == [])
      ensures rslt == 0 && bh == -1 ==> c.minO + idx < old(tiles)[o].order
      ensures rslt == 0 && bh == -1 ==> (starved <==> |old(spare)| <= old(tiles)[o].order - (c.minO + idx))
      ensures rslt == 0 && bh == -1 && !starved ==> FitsBut(-1, {}, -1) && FirstIs(idx, o) && CoalescedBut(c, tiles, o)
      ensures rslt == 0 && bh == -1 && !starved ==> tiles == SplitDown(old(tiles), o, c.minO + idx)
      ensures rslt == 0 && bh != -1 ==> bh == o && old(FirstIs(idx, o)) && FitsBut(-1, {o}, -1)
      ensures rslt == 0 && bh != -1 ==> tiles == old(tiles) && tiles[o].order == c.minO + idx
      ensures rslt == 0 && bh != -1 ==> o in heads && heads[o].fln == 0
    {
      bh := -1;
      var i := FirstNonEmpty(idx);
      if i >= |lists| {
        NothingFits(idx);
        return -1, -1, -1;
      }
      BestFit(idx, i);
      bh, o := TakeFrom(idx, i);
      rslt := 0;
    }

    // The first block of list i is handed out, or split when that is not the list asked for.
    method TakeFrom(idx: nat, i: nat) returns (bh: int, ghost o: int)
      requires FitsBut(-1, {}, -1) && idx <= i < |lists| && lists[i] != [] && (idx < i ==> Coalesced(c, tiles))
      modifies this
      ensures old(Leads(o)) && o in old(tiles) && old(tiles)[o] == Tile(c.minO + i, false)
      ensures bh == -1 <==> idx < i
      ensures starved <==> bh == -1 && |old(spare)| <= i - idx
      ensures bh == -1 && !starved ==> FitsBut(-1, {}, -1) && FirstIs(idx, o) && CoalescedBut(c, tiles, o)
      ensures bh == -1 && !starved ==> tiles == SplitDown(old(tiles), o, c.minO + idx)
      ensures bh != -1 ==> bh == o && old(FirstIs(idx, o)) && FitsBut(-1, {o}, -1)
      ensures bh != -1 ==> tiles == old(tiles) && o in heads && heads[o].fln == 0
    {
      var f, b := PopBlock(i);
      bh, o := -1, b;
      if i > idx {
        SplitTaken(b, idx, i, f);
      } else {
        bh := b;
        HandOut(b, f);
      }
    }

    // The loop of mmp_alloc. A split leaves its left half in front of list
    // idx, so the second round cannot miss.
    method TakeBlock(idx: nat) returns (bh: int, ghost o: int, ghost rounds: nat)
      requires Valid() && idx < |lists|
      modifies this
      ensures rounds <= 2
      ensures starved ==> Short(old(tiles), o, c.minO + idx, |old(spare)|)
      ensures !starved && bh == -1 ==> tiles == old(tiles) && M() == old(M()) && X() == old(X())
      ensures !starved && bh == -1 ==> forall x :: x in FreeSet(tiles) ==> tiles[x].order < c.minO + idx
      ensures !starved && bh != -1 ==> bh == o && Best(old(tiles), o, c.minO + idx)
      ensures !starved && bh != -1 ==> !Short(old(tiles), o, c.minO + idx, |old(spare)|)
      ensures !starved && bh != -1 ==> old(Leads(o))
      ensures !starved && bh != -1 ==> tiles == SplitDown(old(tiles), o, c.minO + idx)
      ensures !starved && bh != -1 ==> FitsBut(-1, {o}, -1) && !tiles[o].used && o in heads && heads[o].fln == 0
    {
      var rslt: int;
      rslt, bh, o := TakeFreeNode(idx);
      rounds := 1;
      if starved || rslt < 0 { return; }
      while bh == -1
        invariant !starved && 1 <= rounds <= 2 && (bh == -1 ==> rounds == 1)
        invariant Best(old(tiles), o, c.minO + idx) && tiles == SplitDown(old(tiles), o, c.minO + idx)
        invariant !Short(old(tiles), o, c.minO + idx, |old(spare)|) && old(Leads(o))
        invariant bh == -1 ==> FitsBut(-1, {}, -1) && FirstIs(idx, o)
        invariant bh != -1 ==> bh == o && FitsBut(-1, {o}, -1) && !tiles[o].used && o in heads && heads[o].fln == 0
        decreases 2 - rounds
      {
        rslt, bh := TakeAgain(idx, o);
        rounds := rounds + 1;
        if rslt < 0 { return; }
      }
    }

    // The round after a split takes the block that the split put in front.
    method TakeAgain(idx: nat, ghost o: int) returns (rslt: int, bh: int)
      requires FitsBut(-1, {}, -1) && FirstIs(idx, o)
      modifies this
      ensures rslt == 0 && bh == o && tiles == old(tiles) && o in heads && heads[o].fln == 0
      ensures FitsBut(-1, {o}, -1) && o in tiles && !tiles[o].used
    {
      ghost var b;
      rslt, bh, b := TakeFreeNode(idx);
    }

    // The order of the block that a payload asks for.
    ghost predicate Wanted(payload: nat, k: nat) {
      && payload + 16 <= Pow2(k) && c.minO <= k
      && forall j: nat :: c.minO <= j < k ==> Pow2(j) < payload + 16
    }

    ghost predicate Granted(m: Tiling, n: Tiling, payload: nat, o: int, k: nat) {
      Wanted(payload, k) && Best(m, o, k) && n == Taken(m, o, k)
    }

    // When no block of the wanted order is free, no free block is large enough.
    lemma NoneFits(payload: nat, k: nat)
      requires Valid()
      requires Wanted(payload, k) || (k == c.maxO + 1 && payload + 16 > Pow2(c.maxO))
      requires forall x :: x in FreeSet(tiles) ==> tiles[x].order < k
      ensures forall x :: x in FreeSet(tiles) ==> Pow2(tiles[x].order) < payload + 16
    {
      forall x | x in FreeSet(tiles)
        ensures Pow2(tiles[x].order) < payload + 16
      {
        assert TileAt(c, tiles, x);
        Powers(c.maxO, tiles[x].order);
      }
    }

    lemma TooLarge(payload: nat)
      requires Valid() && payload + 16 > Pow2(c.maxO)
      ensures forall x :: x in FreeSet(tiles) ==> Pow2(tiles[x].order) < payload + 16
    {
      forall x | x in FreeSet(tiles)
        ensures tiles[x].order < c.maxO + 1
      {
        assert TileAt(c, tiles, x);
      }
      NoneFits(payload, c.maxO + 1);
    }

    // The end of mmp_alloc: the block is marked as used.
    method Mark(o: int, ghost m: Tiling, ghost k: nat)
      requires FitsBut(-1, {o}, -1) && o in tiles && !tiles[o].used && o in heads && heads[o].fln == 0
      requires Tiles(c, m) && Coalesced(c, m) && o in m && !m[o].used && c.minO <= k <= m[o].order
      requires tiles == SplitDown(m, o, k)
      modifies this
      ensures Valid() && tiles == Taken(m, o, k)
    {
      MarkedFits(c, M(), X(), tiles, o);
      TakenKeeps(c, m, o, k);
      tiles := tiles[o := Tile(tiles[o].order, true)];
      heads := heads[o := heads[o].(used := true)];
    }

    // mmp_alloc once the list is known.
    method AllocFrom(idx: nat, ghost payload: nat, ghost k: nat) returns (bh: int)
      requires Valid() && idx < |lists| && k == c.minO + idx && Wanted(payload, k)
      modifies this
      ensures starved <==> Starves(old(tiles), count, k)
      ensures !starved ==> Valid()
      ensures !starved && bh == -1 ==> tiles == old(tiles) && M() == old(M()) && X() == old(X())
      ensures !starved && bh == -1 ==>
        forall x :: x in FreeSet(tiles) ==> Pow2(tiles[x].order) < payload + 16
      ensures !starved && bh != -1 ==> 0 <= bh && Granted(old(tiles), tiles, payload, bh, k)
      ensures !starved && bh != -1 ==> old(Leads(bh))
    {
      SpareCount();
      ghost var o, rounds;
      bh, o, rounds := TakeBlock(idx);
      if starved { return; }
      if bh == -1 {
        NoneFits(payload, k);
        return;
      }
      assert TileAt(c, old(tiles), bh);
      assert HeadAt(M(), tiles, bh);
      if heads[bh].used { return; }
      Mark(bh, old(tiles), k);
    }

    // Every list node is spare or stands for a free block.
    lemma SpareCount()
      requires FitsBut(-1, {}, -1)
      ensures |spare| == count - |FreeSet(tiles)|
    {
      assert FreeSet(tiles) - {} == FreeSet(tiles);
    }

    // The list that a payload asks for, or none when no block is large enough.
    lemma AskedOrder(payload: nat, k: int)
      requires Valid() && k == OrderOf(c, payload)
      ensures
        if payload > Pow2(c.maxO) - 16 then
          k == -1 && forall x :: x in FreeSet(tiles) ==> Pow2(tiles[x].order) < payload + 16
        else 0 <= k - c.minO < |lists| && Wanted(payload, k)
    {
      OrderIsLeast(c, payload, k);
      if payload + 16 > Pow2(c.maxO) { TooLarge(payload); }
    }

    method ListIdx(payload: nat) returns (idx: int)
      requires c.minO < c.maxO
      ensures OrderOf(c, payload) == if idx == -1 then -1 else c.minO + idx
    {
      FlhIdxFits(c, payload);
      idx := FlhIdx(c, payload);
    }

    // What lies between the head and the tail of a block in use, eight bytes each, is in
    // the chunk, and apart from every other block with its head and tail.
    lemma PayloadApart(o: int, x: int)
      requires Valid() && o in UsedSet(tiles) && x in tiles && x != o
      ensures 0 <= o && o + 8 <= End(tiles, o) - 8 && End(tiles, o) <= c.size
      ensures End(tiles, o) <= x || End(tiles, x) <= o
    {
      assert TileAt(c, tiles, o) && TileAt(c, tiles, x);
      Pow2Grows(4, tiles[o].order);
      assert Pow2(4) == 16 by { assert Pow2(2) == 4; }
      if o < x { Disjoint(c, tiles, o, x); } else { Disjoint(c, tiles, x, o); }
    }

    // mmp_alloc: 0 exactly when no free block is large enough; otherwise the
    // address after the head of a best-fitting block, split to the least order,
    // unless the split asks for more list nodes than are spare.
    method Alloc(payload: nat) returns (p: int, ghost k: int)
      requires Valid()
      modifies this
      ensures k == OrderOf(c, payload)
      ensures starved <==> 0 < payload && k != -1 && Starves(old(tiles), count, k)
      ensures !starved ==> Valid() && p >= 0
      ensures !starved && p == 0 ==> tiles == old(tiles) && M() == old(M()) && X() == old(X())
      ensures !starved && p == 0 && 0 < payload ==>
        forall x :: x in FreeSet(tiles) ==> Pow2(tiles[x].order) < payload + 16
      ensures !starved && p != 0 ==> 0 < payload && k >= 0 && Granted(old(tiles), tiles, payload, p - 8, k)
      ensures !starved && p != 0 ==> old(Leads(p - 8))
      ensures !starved && p != 0 ==>
        p - 8 in tiles && tiles[p - 8] == Tile(k, true) && p + payload <= p - 8 + Pow2(k) - 8
    {
      p, k := 0, OrderOf(c, payload);
      AskedOrder(payload, k);
      if payload == 0 || payload > Pow2(c.maxO) - HEAD_TAIL_SIZE { return; }
      var idx := ListIdx(payload);
      if idx < 0 { return; }
      var bh := AllocFrom(idx, payload, k);
      if starved || bh == -1 { return; }
      p := bh + HEAD_SIZE;
    }

    // The merge loop of mmp_free: block o is free, of no list, and alone may
    // have a free buddy.
    ghost predicate Merging(o: int)
      reads this
    {
      && FitsBut(-1, {o}, -1) && CoalescedBut(c, tiles, o) && o in tiles && !tiles[o].used
      && o in heads && heads[o] == Head(false, 0, Pow2(tiles[o].order))
    }

    method UnlinkAndMake(u: int, o: int, size: nat, ghost k: nat) returns (rslt: int)
      requires u in heads && heads[u].size == Pow2(k) && c.minO <= k <= c.maxO && size == Pow2(k + 1)
      requires |lists| == c.maxO - c.minO + 1 && heads[u].fln < |block| && lists[k - c.minO] != []
      modifies `heads, `tails, `block, `lists, `spare
      ensures rslt == 0 && M() == Made(WithFln(old(M()), u, 0), o, size, raw(o).fln)
      ensures X() == Unlinked(old(X()), k - c.minO, old(heads[u].fln))
    {
      rslt := UnlinkBlock(u, k);
      if rslt < 0 { return; }
      MakeBlock(o, size, k + 1);
    }

    // Block u leaves its list and the pair at o becomes one block.
    method Merge(u: int, o: int, size: nat, ghost b: int) returns (rslt: int)
      requires Merging(b) && FreePair(c, tiles, o) && {b, u} == {o, End(tiles, o)} && u != b
      requires size == 2 * Pow2(tiles[o].order)
      modifies this
      ensures rslt == 0 && Merging(o) && tiles == Joined(old(tiles), o)
    {
      ghost var k, n := tiles[o].order, Joined(tiles, o);
      MergedFitsHere(u, o, size, b, k, n);
      rslt := UnlinkAndMake(u, o, size, k);
      tiles := n;
    }

    lemma MergedFitsHere(u: int, o: int, size: nat, b: int, k: nat, n: Tiling)
      requires Merging(b) && FreePair(c, tiles, o) && {b, u} == {o, End(tiles, o)} && u != b
      requires k == tiles[o].order && size == 2 * Pow2(k) && n == Joined(tiles, o)
      ensures u in heads && heads[u].size == Pow2(k) && c.minO <= k <= c.maxO && size == Pow2(k + 1)
      ensures |lists| == c.maxO - c.minO + 1 && heads[u].fln < |block| && lists[k - c.minO] != []
      ensures var mem, ix := Made(WithFln(M(), u, 0), o, size, raw(o).fln), Unlinked(X(), k - c.minO, heads[u].fln);
        && Fits(c, mem, ix, n, -1, {o}, -1) && |ix.block| == |block|
        && CoalescedBut(c, n, o) && o in n && !n[o].used
        && o in mem.heads && mem.heads[o] == Head(false, 0, Pow2(n[o].order))
    {
      assert TileAt(c, tiles, o) && TileAt(c, tiles, u) && HeadAt(M(), tiles, u);
      assert IndexedAt(c, M(), X(), tiles, u);
      MergedFits(c, M(), X(), tiles, b, u, o, raw(o).fln);
      JoinedKeeps(c, tiles, o, b);
    }

    // The tests that _merge_buddy_next and _merge_buddy_prev share; order is
    // that of the left block, so the mask is -(2 * size).
    predicate BuddyTest(l: int, r: int, order: nat)
      reads `heads
    {
      && !HeadOf(l).used && !HeadOf(r).used && HeadOf(l).size == HeadOf(r).size
      && Mask(l, order + 1) == Mask(r, order + 1)
    }

    // _merge_buddy_next
    method MergeNext(o: int) returns (ret: bool)
      requires Merging(o) && tiles[o].order < c.maxO
      modifies this
      ensures ret <==> FreePair(c, old(tiles), o)
      ensures ret ==> Merging(o) && tiles == Joined(old(tiles), o)
      ensures !ret ==> tiles == old(tiles) && M() == old(M()) && X() == old(X()) && !starved
    {
      var next := NextBlock(o);
      assert next in tiles ==> HeadAt(M(), tiles, next) by { assert TileAt(c, tiles, o); }
      NextTestIsBuddy(c, M(), tiles, o, HeadOf(next));
      Log2Unique(HeadOf(o).size, tiles[o].order);
      ret := BuddyTest(o, next, Log2(HeadOf(o).size));
      if ret {
        var rslt := Merge(next, o, 2 * HeadOf(o).size, o);
      }
    }

    // The block in front of o, as the code finds it, passes the test exactly
    // when it is a left buddy, or is o itself at the start of the chunk.
    lemma PrevTest(o: int)
      requires Merging(o) && tiles[o].order < c.maxO
      ensures o == 0 || o in tails
      ensures var p := PrevBlock(o);
        BuddyTest(p, o, tiles[o].order) <==> JoinsLeft(c, tiles, o) || (o == 0 && front == 0)
      ensures JoinsLeft(c, tiles, o) ==> o > 0 && PrevBlock(o) == LeftOf(tiles, o)
    {
      assert TileAt(c, tiles, o) && HeadAt(M(), tiles, o);
      if o == 0 {
        assert !TileAt(c, tiles, LeftOf(tiles, o));
        if front > 0 { BeforeChunk(0 - front, tiles[o].order + 1); }
      } else {
        var p := TailBefore(c, M(), tiles, o);
        PrevTestIsBuddy(c, M(), tiles, o, p);
      }
    }

    // Its list is then not empty.
    lemma ListHasTwin(o: int)
      requires Merging(o)
      ensures 0 <= tiles[o].order - c.minO < |lists|
      ensures lists[tiles[o].order - c.minO] != [] <==> HasTwin(tiles, o)
    {
      assert TileAt(c, tiles, o);
      var i := tiles[o].order - c.minO;
      if lists[i] != [] {
        var f := lists[i][0];
        assert f in X().lists[i] && ListedAt(c, M(), X(), tiles, {o}, -1, i, f);
        assert block[f] in tiles && block[f] != o && tiles[block[f]] == Tile(tiles[o].order, false);
        assert HasTwin(tiles, o);
      }
      if HasTwin(tiles, o) {
        var x :| x in tiles && x != o && tiles[x] == Tile(tiles[o].order, false);
        assert x in FreeSet(tiles) - {o} && IndexedAt(c, M(), X(), tiles, x);
        assert heads[x].fln in lists[i];
      }
    }

    // The block took itself for its left buddy: list node 0 leaves whatever list
    // it is in and is spare again, and the block is doubled.
    method DoubleSelf(o: int, size: nat, ghost k: nat)
      requires o in heads && heads[o].fln == 0 && |block| > 0 && size == Pow2(k + 1)
      modifies `heads, `tails, `block, `lists, `spare
      ensures M() == Made(old(M()), o, size, raw(o).fln) && |block| == |old(block)|
      ensures block[0] == -1 && spare == [0] + Minus(old(spare), 0) && |lists| == |old(lists)|
      ensures forall i :: 0 <= i < |lists| ==> lists[i] == Minus(old(lists)[i], 0)
    {
      var before := lists;
      lists := seq(|lists|, i requires 0 <= i < |before| => Minus(before[i], 0));
      block, spare := block[0 := -1], [0] + Minus(spare, 0);
      MakeBlock(o, size, k + 1);
    }

    // _merge_buddy_prev; overlap tells that the block took itself for its
    // buddy and that the unlink went through, so that it was doubled.
    method MergePrev(o: int) returns (ret: bool, p: int, overlap: bool)
      requires Merging(o) && tiles[o].order < c.maxO
      modifies this
      ensures ret <==> JoinsLeft(c, old(tiles), o)
      ensures ret ==> p == LeftOf(old(tiles), o) && Merging(p) && tiles == Joined(old(tiles), p)
      ensures !ret ==> tiles == old(tiles)
      ensures !ret && !overlap ==> M() == old(M()) && X() == old(X())
      ensures overlap <==> o == 0 && front == 0 && HasTwin(old(tiles), o)
      ensures overlap ==> !ret && o in heads && heads[o] == Head(false, 0, Pow2(tiles[o].order + 1))
      ensures !starved
    {
      PrevTest(o);
      ListHasTwin(o);
      Log2Unique(HeadOf(o).size, tiles[o].order);
      p, ret, overlap := PrevBlock(o), false, false;
      if BuddyTest(p, o, Log2(HeadOf(o).size)) {
        if p == o {
          overlap := lists[Log2(HeadOf(o).size) - c.minO] != [];
          if overlap {
            NodesExist(o);
            DoubleSelf(o, 2 * HeadOf(o).size, tiles[o].order);
          }
        } else {
          ret := true;
          var rslt := Merge(p, p, 2 * HeadOf(p).size, o);
        }
      }
    }

    lemma NodesExist(o: int)
      requires Merging(o) && 0 <= tiles[o].order - c.minO < |lists| && lists[tiles[o].order - c.minO] != []
      ensures |block| > 0
    {
      var i := tiles[o].order - c.minO;
      assert lists[i][0] in X().lists[i] && ListedAt(c, M(), X(), tiles, {o}, -1, i, lists[i][0]);
    }

    // One round of the merge loop: the right buddy first, then the left one.
    method MergeStep(o: int) returns (ret: bool, b: int, overlap: bool)
      requires Merging(o) && tiles[o].order < c.maxO
      modifies this
      ensures !starved && (!overlap ==> Merging(b))
      ensures b in tiles && Coalesce(c, old(tiles), o) == Coalesce(c, tiles, b)
      ensures overlap ==> !ret && b in heads && heads[b] == Head(false, 0, Pow2(tiles[b].order + 1))
      ensures ret ==> tiles[b].order == old(tiles[o].order) + 1
      ensures !ret ==> tiles == old(tiles) && b == o && Coalesce(c, tiles, o) == (tiles, o)
      ensures !ret ==> (overlap <==> o == 0 && front == 0 && HasTwin(tiles, o))
    {
      ret := MergeNext(o);
      b, overlap := o, false;
      if !ret {
        var p;
        ret, p, overlap := MergePrev(o);
        if ret { b := p; }
      }
    }

    // The merge loop of mmp_free.
    method MergeAll(o: int) returns (b: int, overlap: bool)
      requires Merging(o)
      modifies this
      ensures Coalesce(c, old(tiles), o) == (tiles, b) && Coalesced(c, tiles) && b in tiles
      ensures !starved && (!overlap ==> Merging(b))
      ensures overlap ==> b in heads && heads[b] == Head(false, 0, Pow2(tiles[b].order + 1))
      ensures overlap <==> b == 0 && front == 0 && tiles[b].order < c.maxO && HasTwin(tiles, b)
    {
      b, overlap := o, false;
      CoalesceKeeps(c, tiles, o);
      var go := true;
      while go && heads[b].size < Pow2(c.maxO)
        invariant b in tiles && b in heads && Coalesce(c, old(tiles), o) == Coalesce(c, tiles, b)
        invariant !starved && (!overlap ==> Merging(b))
        invariant overlap ==> !go && heads[b] == Head(false, 0, Pow2(tiles[b].order + 1))
        invariant !go ==> tiles[b].order < c.maxO && Coalesce(c, tiles, b) == (tiles, b)
        invariant !go ==> (overlap <==> b == 0 && front == 0 && HasTwin(tiles, b))
        decreases go, c.maxO - tiles[b].order
      {
        Powers(tiles[b].order, c.maxO);
        go, b, overlap := MergeStep(b);
      }
      Powers(tiles[b].order, c.maxO);
    }

    // Where the block lies that the one at o has become part of when it is freed.
    ghost function Merged(m: Tiling, o: int): (b: int)
      requires o in m
      ensures b in Released(c, m, o)
    {
      Coalesce(c, m[o := Tile(m[o].order, false)], o).1
    }

    // The part of mmp_free behind its checks.
    method FreeBlock(o: int) returns (r: FreeResult, ghost b: int)
      requires Valid() && o in UsedSet(tiles) && o in heads
      modifies this
      ensures r != Refused && (r == Starved <==> starved) && tiles == Released(c, old(tiles), o)
      ensures r == Overlapped <==> front == 0 && Doubles(c, old(tiles), o)
      ensures r == Overlapped ==> 0 in tiles && 0 in heads && heads[0].size == Pow2(tiles[0].order + 1)
      ensures r == Starved <==> !(front == 0 && Doubles(c, old(tiles), o)) && |FreeSet(tiles)| > count
      ensures b == Merged(old(tiles), o) && (r == Freed ==> Valid() && Leads(b))
    {
      DoublesExactly(c, tiles, o);
      Unmark(o);
      var overlap, at;
      at, overlap := MergeAll(o);
      b := at;
      if overlap { return Overlapped, b; }
      Relist(at);
      return if starved then Starved else Freed, b;
    }

    // mmp_free: refused exactly when no block in use starts there; otherwise
    // the block is free and merged as far as possible, unless the first block of
    // the chunk is merged with itself, or no node is left to list the block.
    method Free(p: int) returns (r: FreeResult)
      requires Valid() && (p == 0 || p - 8 in heads)
      modifies this
      ensures r == Refused <==> p == 0 || p - 8 !in UsedSet(old(tiles))
      ensures r == Refused ==> tiles == old(tiles) && M() == old(M()) && X() == old(X()) && Valid()
      ensures r != Refused ==> tiles == Released(c, old(tiles), p - 8)
      ensures r == Overlapped <==> r != Refused && front == 0 && Doubles(c, old(tiles), p - 8)
      ensures r == Overlapped ==> 0 in tiles && 0 in heads && heads[0].size == Pow2(tiles[0].order + 1)
      ensures r == Starved <==> r != Refused && r != Overlapped && |FreeSet(tiles)| > count
      ensures r == Starved <==> starved
      ensures r == Freed ==> Valid() && Leads(Merged(old(tiles), p - 8))
    {
      if p == 0 { return Refused; }
      var o := p - HEAD_SIZE;
      assert StaleAt(c, M(), tiles, o) && (o in tiles ==> HeadAt(M(), tiles, o));
      if tails[o + heads[o].size] != heads[o].size { return Refused; }
      if !heads[o].used { return Refused; }
      ghost var b;
      r, b := FreeBlock(o);
    }

    // The used flag is cleared.
    method Unmark(o: int)
      requires Valid() && o in tiles && tiles[o].used && o in heads
      modifies this
      ensures tiles == old(tiles)[o := Tile(old(tiles)[o].order, false)] && Merging(o)
    {
      assert TileAt(c, tiles, o) && HeadAt(M(), tiles, o);
      ClearedFits(c, M(), X(), tiles, o);
      FreedBut(c, tiles, o);
      tiles := tiles[o := Tile(tiles[o].order, false)];
      heads := heads[o := heads[o].(used := false)];
    }

    method Relist(b: int)
      requires Merging(b) && Coalesced(c, tiles)
      modifies this
      ensures tiles == old(tiles)
      ensures starved <==> |FreeSet(tiles)| > count
      ensures !starved ==> Valid() && Leads(b)
    {
      assert FreeSet(tiles) == (FreeSet(tiles) - {b}) + {b};
      assert TileAt(c, tiles, b) && HeadAt(M(), tiles, b);
      if spare != [] { ListedFits(c, M(), X(), tiles, b); }
      var rslt := ReturnToHead(b, tiles[b].order);
    }

    // Once every block is free again, the chunk is as it was built.
    lemma AllReturned()
      requires Valid() && UsedSet(tiles) == {}
      ensures tiles == Initial(c)
    {
      forall o | o in tiles
        ensures !tiles[o].used
      {
        assert o !in UsedSet(tiles);
      }
      AllFreeIsInitial(c, tiles);
    }

    // --- mmp_check ------------------------------------------------------------------

    // The first loop: the bytes of the free blocks, walking through the chunk.
    method WalkFree() returns (sum: nat)
      requires Valid()
      ensures sum == FreeBytes(tiles, FreeSet(tiles), c.size)
    {
      sum := 0;
      var h := 0;
      SumOfNone(tiles, c.size);
      assert FreeIn(tiles, 0, 0) == {};
      while h < c.size
        invariant 0 <= h <= c.size && (h < c.size ==> h in tiles)
        invariant sum == FreeBytes(tiles, FreeIn(tiles, 0, h), c.size)
        decreases c.size - h
      {
        WalkStep(c, tiles, h);
        assert HeadAt(M(), tiles, h);
        if !HeadOf(h).used { sum := sum + HeadOf(h).size; }
        h := NextBlock(h);
      }
      WholeWalk(c, tiles);
    }

    // The free blocks in the lists below i, and those of the first j nodes of list i.
    ghost predicate VisitedAt(i: nat, j: nat, o: int)
      reads this
    {
      && o in FreeSet(tiles) && o in heads && i <= |lists|
      && (tiles[o].order < c.minO + i
          || (i < |lists| && j <= |lists[i]| && tiles[o].order == c.minO + i && heads[o].fln in lists[i][..j]))
    }

    ghost function Visited(i: nat, j: nat): set<int>
      reads this
    {
      set o | o in tiles && VisitedAt(i, j, o)
    }

    lemma NextNode(i: nat, j: nat)
      requires Valid() && i < |lists| && j < |lists[i]|
      ensures var f := lists[i][j];
        && f < |block| && block[f] in tiles && block[f] in heads && block[f] !in Visited(i, j)
        && Visited(i, j + 1) == Visited(i, j) + {block[f]} && HeadAt(M(), tiles, block[f])
        && !tiles[block[f]].used && tiles[block[f]].order == c.minO + i && 0 <= block[f] < c.size
    {
      var f := lists[i][j];
      assert f in X().lists[i] && ListedAt(c, M(), X(), tiles, {}, -1, i, f);
      var b := block[f];
      assert Distinct(lists[i]) && TileAt(c, tiles, b) && HeadAt(M(), tiles, b);
      assert lists[i][..j + 1] == lists[i][..j] + [f] && f !in lists[i][..j];
      forall o
        ensures o in Visited(i, j + 1) <==> o in Visited(i, j) + {b}
      {
        assert o in FreeSet(tiles) - {} ==> IndexedAt(c, M(), X(), tiles, o);
      }
    }

    lemma NextList(i: nat)
      requires Valid() && i < |lists|
      ensures Visited(i, |lists[i]|) == Visited(i + 1, 0)
    {
      assert lists[i][..|lists[i]|] == lists[i];
      forall o
        ensures o in Visited(i, |lists[i]|) <==> o in Visited(i + 1, 0)
      {
        assert o in FreeSet(tiles) - {} ==> IndexedAt(c, M(), X(), tiles, o);
      }
    }

    lemma FirstAndLast()
      requires Valid()
      ensures Visited(0, 0) == {} && Visited(|lists|, 0) == FreeSet(tiles)
    {
      forall o
        ensures o !in Visited(0, 0)
        ensures o in Visited(|lists|, 0) <==> o in FreeSet(tiles)
      {
        assert o in tiles ==> TileAt(c, tiles, o);
        assert o in FreeSet(tiles) - {} ==> IndexedAt(c, M(), X(), tiles, o);
      }
    }

    // One list of the second loop.
    method ListedFree(i: nat, ghost before: nat) returns (rslt: int, sum: nat)
      requires Valid() && i < |lists| && before == FreeBytes(tiles, Visited(i, 0), c.size)
      ensures rslt == 0 && before + sum == FreeBytes(tiles, Visited(i + 1, 0), c.size)
    {
      sum := 0;
      Pow2Adds(c.minO, i);
      var size, j := Pow2(c.minO) * Pow2(i), 0;
      while j < |lists[i]|
        invariant j <= |lists[i]| && before + sum == FreeBytes(tiles, Visited(i, j), c.size)
      {
        NextNode(i, j);
        var b := block[lists[i][j]];
        if heads[b].used || heads[b].size != size { return -1, sum; }
        SumGrows(tiles, Visited(i, j), b, c.size);
        sum := sum + heads[b].size;
        j := j + 1;
      }
      NextList(i);
      return 0, sum;
    }

    // mmp_check: 0 for every valid pool, and the free bytes that it finds in
    // the chunk are those that it finds in the lists.
    method Check() returns (rslt: int, walked: nat, listed: nat)
      requires Valid()
      ensures rslt == 0 && walked == listed == FreeBytes(tiles, FreeSet(tiles), c.size)
    {
      walked := WalkFree();
      listed := 0;
      FirstAndLast();
      SumOfNone(tiles, c.size);
      var i := 0;
      while i < |lists|
        invariant i <= |lists| && listed == FreeBytes(tiles, Visited(i, 0), c.size)
      {
        var sum;
        rslt, sum := ListedFree(i, listed);
        if rslt < 0 { return; }
        listed := listed + sum;
        i := i + 1;
      }
      rslt := 0;
    }
  }
}
