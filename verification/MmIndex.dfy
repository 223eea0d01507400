// Block heads, block tails and the free-list index of src/mmpool.c, and their
// agreement with the tiling of the chunk.
module MmIndex {
  import opened Arith
  import opened Align
  import opened Buddy
  import opened Lists

  // _block_head: in-use flag, number of its free-list node, size in bytes.
  datatype Head = Head(used: bool, fln: nat, size: nat)

  // Heads by block offset; tails by the offset where the block ends.
  datatype Mem = Mem(heads: map<int, Head>, tails: map<int, nat>)

  // The free-list nodes: the block each one stands for (-1 for none), one list
  // per order, and the list of spare nodes.
  datatype Index = Index(block: seq<int>, lists: seq<seq<nat>>, spare: seq<nat>)

  ghost predicate HeadAt(mem: Mem, m: Tiling, o: int) {
    && o in m && o in mem.heads
    && mem.heads[o].used == m[o].used && mem.heads[o].size == Pow2(m[o].order)
    && (m[o].used ==> mem.heads[o].fln == 0)
    && End(m, o) in mem.tails && mem.tails[End(m, o)] == Pow2(m[o].order)
  }

  // A head written some time ago; only blocks of the tiling can be in use.
  ghost predicate StaleAt(c: Config, mem: Mem, m: Tiling, o: int) {
    && o in mem.heads && 0 <= o < c.size && (mem.heads[o].used ==> o in m)
    && o + mem.heads[o].size in mem.tails
  }

  // Heads and tails describe the tiling, except that block x is being rewritten.
  ghost predicate HeadsBut(c: Config, mem: Mem, m: Tiling, x: int) {
    && (forall o {:trigger HeadAt(mem, m, o)} :: o in m && o != x ==> HeadAt(mem, m, o))
    && (forall o {:trigger StaleAt(c, mem, m, o)} :: o in mem.heads ==> StaleAt(c, mem, m, o))
    && (x in m ==> x in mem.heads)
  }

  // The free block o can be reached from its head and from its list.
  ghost predicate IndexedAt(c: Config, mem: Mem, ix: Index, m: Tiling, o: int) {
    && o in m && o in mem.heads && c.minO <= m[o].order && m[o].order - c.minO < |ix.lists|
    && mem.heads[o].fln < |ix.block| && ix.block[mem.heads[o].fln] == o
    && mem.heads[o].fln in ix.lists[m[o].order - c.minO]
  }

  // A node f of list i stands for a free block of that order.
  ghost predicate ListedAt(c: Config, mem: Mem, ix: Index, m: Tiling, B: set<int>, held: int, i: int, f: nat) {
    && f < |ix.block| && f != held && ix.block[f] in m && ix.block[f] !in B
    && m[ix.block[f]].order == c.minO + i && !m[ix.block[f]].used
    && ix.block[f] in mem.heads && mem.heads[ix.block[f]].fln == f
  }

  // Every node is spare, held, or stands for a free block.
  ghost predicate NodeAt(mem: Mem, ix: Index, m: Tiling, B: set<int>, held: int, f: nat) {
    f < |ix.block| ==>
      || f in ix.spare || f == held
      || (ix.block[f] in m && !m[ix.block[f]].used && ix.block[f] !in B
          && ix.block[f] in mem.heads && mem.heads[ix.block[f]].fln == f)
  }

  ghost predicate SpareAt(ix: Index, held: int, f: nat) {
    f < |ix.block| && f != held && ix.block[f] == -1
  }

  // Index and tiling agree: the free blocks outside B are exactly the ones that
  // the lists hold; one node may be held outside every list.
  ghost predicate Agree(c: Config, mem: Mem, ix: Index, m: Tiling, B: set<int>, held: int) {
    && c.minO < c.maxO && |ix.lists| == c.maxO - c.minO + 1
    && (forall o {:trigger IndexedAt(c, mem, ix, m, o)} :: o in FreeSet(m) - B ==> IndexedAt(c, mem, ix, m, o))
    && (forall i, f {:trigger ListedAt(c, mem, ix, m, B, held, i, f)} ::
          0 <= i < |ix.lists| && f in ix.lists[i] ==> ListedAt(c, mem, ix, m, B, held, i, f))
    && (forall i {:trigger Distinct(ix.lists[i])} :: 0 <= i < |ix.lists| ==> Distinct(ix.lists[i]))
    && Distinct(ix.spare)
    && (forall f {:trigger SpareAt(ix, held, f)} :: f in ix.spare ==> SpareAt(ix, held, f))
    && (forall f {:trigger NodeAt(mem, ix, m, B, held, f)} :: NodeAt(mem, ix, m, B, held, f))
    && held < |ix.block| && -1 !in m
    && |ix.spare| + |FreeSet(m) - B| + (if held >= 0 then 1 else 0) == |ix.block|
  }

  ghost function Slot(c: Config, m: Tiling, o: int): int
    requires o in m
  {
    m[o].order - c.minO
  }

  // lst_push_front of a spare node, filled in for block o.
  ghost function Pushed(ix: Index, i: int, o: int): Index
    requires 0 <= i < |ix.lists| && |ix.spare| > 0 && ix.spare[0] < |ix.block|
  {
    var f := ix.spare[0];
    Index(ix.block[f := o], ix.lists[i := [f] + ix.lists[i]], ix.spare[1..])
  }

  ghost function WithFln(mem: Mem, o: int, f: nat): Mem
    requires o in mem.heads
  {
    mem.(heads := mem.heads[o := mem.heads[o].(fln := f)])
  }

  lemma PushKeeps(c: Config, mem: Mem, ix: Index, m: Tiling, B: set<int>, held: int, o: int)
    requires Agree(c, mem, ix, m, B, held) && o in B && o in m && !m[o].used && o in mem.heads
    requires c.minO <= m[o].order <= c.maxO && |ix.spare| > 0
    ensures ix.spare[0] < |ix.block|
    ensures Agree(c, WithFln(mem, o, ix.spare[0]), Pushed(ix, Slot(c, m, o), o), m, B - {o}, held)
  {
    var f := ix.spare[0];
    assert SpareAt(ix, held, f);
    var mem', ix', B', i := WithFln(mem, o, f), Pushed(ix, Slot(c, m, o), o), B - {o}, Slot(c, m, o);
    assert FreeSet(m) - B' == (FreeSet(m) - B) + {o};
    forall x | x in FreeSet(m) - B'
      ensures IndexedAt(c, mem', ix', m, x)
    {
      if x != o { assert IndexedAt(c, mem, ix, m, x); }
    }
    forall j, g | 0 <= j < |ix'.lists| && g in ix'.lists[j]
      ensures ListedAt(c, mem', ix', m, B', held, j, g)
    {
      assert g in ix.lists[j] ==> ListedAt(c, mem, ix, m, B, held, j, g);
    }
    forall j | 0 <= j < |ix'.lists|
      ensures Distinct(ix'.lists[j])
    {
      assert Distinct(ix.lists[j]);
      assert f in ix.lists[i] ==> ListedAt(c, mem, ix, m, B, held, i, f);
    }
    forall g | g in ix'.spare
      ensures SpareAt(ix', held, g)
    {
      assert SpareAt(ix, held, g);
    }
    forall g: nat
      ensures NodeAt(mem', ix', m, B', held, g)
    {
      assert NodeAt(mem, ix, m, B, held, g);
    }
  }

  // _unlink_block: node f of block o leaves list i and becomes spare.
  ghost function Unlinked(ix: Index, i: int, f: nat): Index
    requires 0 <= i < |ix.lists| && f < |ix.block|
  {
    Index(ix.block[f := -1], ix.lists[i := Minus(ix.lists[i], f)], [f] + ix.spare)
  }

  lemma UnlinkKeeps(c: Config, mem: Mem, ix: Index, m: Tiling, B: set<int>, o: int)
    requires Agree(c, mem, ix, m, B, -1) && o in FreeSet(m) - B && c.minO <= m[o].order <= c.maxO
    ensures IndexedAt(c, mem, ix, m, o)
    ensures var f := mem.heads[o].fln;
      Agree(c, WithFln(mem, o, 0), Unlinked(ix, Slot(c, m, o), f), m, B + {o}, -1)
  {
    assert IndexedAt(c, mem, ix, m, o);
    var f, i := mem.heads[o].fln, Slot(c, m, o);
    var mem', ix', B' := WithFln(mem, o, 0), Unlinked(ix, i, f), B + {o};
    assert FreeSet(m) - B' == (FreeSet(m) - B) - {o};
    assert ListedAt(c, mem, ix, m, B, -1, i, f);
    assert f in ix.spare ==> SpareAt(ix, -1, f);
    forall x | x in FreeSet(m) - B'
      ensures IndexedAt(c, mem', ix', m, x)
    {
      assert IndexedAt(c, mem, ix, m, x);
    }
    forall j, g | 0 <= j < |ix'.lists| && g in ix'.lists[j]
      ensures ListedAt(c, mem', ix', m, B', -1, j, g)
    {
      assert ListedAt(c, mem, ix, m, B, -1, j, g);
    }
    forall j | 0 <= j < |ix'.lists|
      ensures Distinct(ix'.lists[j])
    {
      assert Distinct(ix.lists[j]);
      MinusDistinct(ix.lists[j], f);
    }
    forall g | g in ix'.spare
      ensures SpareAt(ix', -1, g)
    {
      assert g != f ==> SpareAt(ix, -1, g);
    }
    forall g: nat
      ensures NodeAt(mem', ix', m, B', -1, g)
    {
      assert NodeAt(mem, ix, m, B, -1, g);
    }
  }

  // lst_pop_front of list i: its first node is held, its block unindexed.
  ghost function Popped(ix: Index, i: int): Index
    requires 0 <= i < |ix.lists| && |ix.lists[i]| > 0
  {
    ix.(lists := ix.lists[i := ix.lists[i][1..]])
  }

  lemma PopKeeps(c: Config, mem: Mem, ix: Index, m: Tiling, i: int)
    requires Agree(c, mem, ix, m, {}, -1) && 0 <= i < |ix.lists| && |ix.lists[i]| > 0
    ensures var f := ix.lists[i][0];
      && f < |ix.block| && ix.block[f] in m && !m[ix.block[f]].used && m[ix.block[f]].order == c.minO + i
      && Agree(c, mem, Popped(ix, i), m, {ix.block[f]}, f)
  {
    var f := ix.lists[i][0];
    assert ListedAt(c, mem, ix, m, {}, -1, i, f);
    var o := ix.block[f];
    var ix' := Popped(ix, i);
    assert FreeSet(m) - {o} == (FreeSet(m) - {}) - {o};
    assert Distinct(ix.lists[i]);
    assert f in ix.spare ==> SpareAt(ix, -1, f);
    forall x | x in FreeSet(m) - {o}
      ensures IndexedAt(c, mem, ix', m, x)
    {
      assert IndexedAt(c, mem, ix, m, x);
    }
    forall j, g | 0 <= j < |ix'.lists| && g in ix'.lists[j]
      ensures ListedAt(c, mem, ix', m, {o}, f, j, g)
    {
      assert ListedAt(c, mem, ix, m, {}, -1, j, g);
    }
    forall j | 0 <= j < |ix'.lists|
      ensures Distinct(ix'.lists[j])
    {
      assert Distinct(ix.lists[j]);
    }
    forall g | g in ix'.spare
      ensures SpareAt(ix', f, g)
    {
      assert SpareAt(ix, -1, g);
    }
    forall g: nat
      ensures NodeAt(mem, ix', m, {o}, f, g)
    {
      assert NodeAt(mem, ix, m, {}, -1, g);
    }
  }

  // _return_free_fln of the held node.
  ghost function Returned(ix: Index, f: nat): Index
    requires f < |ix.block|
  {
    ix.(block := ix.block[f := -1], spare := [f] + ix.spare)
  }

  lemma ReturnKeeps(c: Config, mem: Mem, ix: Index, m: Tiling, B: set<int>, f: nat)
    requires Agree(c, mem, ix, m, B, f)
    ensures Agree(c, mem, Returned(ix, f), m, B, -1)
  {
    var ix' := Returned(ix, f);
    assert f in ix.spare ==> SpareAt(ix, f, f);
    forall x | x in FreeSet(m) - B
      ensures IndexedAt(c, mem, ix', m, x)
    {
      assert IndexedAt(c, mem, ix, m, x);
      assert ListedAt(c, mem, ix, m, B, f, m[x].order - c.minO, mem.heads[x].fln);
    }
    forall j, g | 0 <= j < |ix'.lists| && g in ix'.lists[j]
      ensures ListedAt(c, mem, ix', m, B, -1, j, g)
    {
      assert ListedAt(c, mem, ix, m, B, f, j, g);
    }
    forall g | g in ix'.spare
      ensures SpareAt(ix', -1, g)
    {
      assert g != f ==> SpareAt(ix, f, g);
    }
    forall g: nat
      ensures NodeAt(mem, ix', m, B, -1, g)
    {
      assert NodeAt(mem, ix, m, B, f, g);
    }
  }

  ghost predicate SameBlock(mem: Mem, m: Tiling, mem': Mem, m': Tiling, o: int) {
    && o in m && o in m' && m'[o] == m[o]
    && (o in mem.heads ==> o in mem'.heads && mem'.heads[o].fln == mem.heads[o].fln)
  }

  // Rewriting blocks whose free-list nodes do not change.
  lemma RetileKeeps(c: Config, mem: Mem, ix: Index, m: Tiling, B: set<int>, held: int,
                    mem': Mem, m': Tiling, B': set<int>)
    requires Agree(c, mem, ix, m, B, held) && -1 !in m'
    requires FreeSet(m') - B' == FreeSet(m) - B
    requires forall o {:trigger SameBlock(mem, m, mem', m', o)} ::
      o in FreeSet(m) - B ==> SameBlock(mem, m, mem', m', o)
    ensures Agree(c, mem', ix, m', B', held)
  {
    forall x | x in FreeSet(m') - B'
      ensures IndexedAt(c, mem', ix, m', x)
    {
      assert SameBlock(mem, m, mem', m', x);
      assert IndexedAt(c, mem, ix, m, x);
    }
    forall j, g | 0 <= j < |ix.lists| && g in ix.lists[j]
      ensures ListedAt(c, mem', ix, m', B', held, j, g)
    {
      assert ListedAt(c, mem, ix, m, B, held, j, g);
      assert ix.block[g] in FreeSet(m') - B' && SameBlock(mem, m, mem', m', ix.block[g]);
    }
    forall g: nat
      ensures NodeAt(mem', ix, m', B', held, g)
    {
      assert NodeAt(mem, ix, m, B, held, g);
      if g < |ix.block| && g !in ix.spare && g != held {
        assert ix.block[g] in FreeSet(m') - B' && SameBlock(mem, m, mem', m', ix.block[g]);
      }
    }
    forall g | g in ix.spare
      ensures SpareAt(ix, held, g)
    {
      assert SpareAt(ix, held, g);
    }
  }
}
