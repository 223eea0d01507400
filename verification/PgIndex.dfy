// The segments of src/pgpool.c: one array of descriptors, their order by
// address, one free list per log2 of the page count, and the spare descriptors.
module PgIndex {
  import opened Arith
  import opened Lists

  // A descriptor; start counts pages from the start of the chunk.
  datatype Seg = Seg(start: nat, count: nat, used: bool)

  datatype Store = Store(segs: seq<Seg>, order: seq<nat>, lists: seq<seq<nat>>, spare: seq<nat>)
  {
    ghost predicate Has(i: int) { 0 <= i < |order| && order[i] < |segs| }

    // The segment at place i of the order.
    ghost function At(i: int): Seg
      requires Has(i)
    {
      segs[order[i]]
    }

    ghost function End(i: int): nat
      requires Has(i)
    {
      At(i).start + At(i).count
    }

    // Segment i starts where the one before it ends.
    ghost predicate ChainAt(max: nat, i: int) {
      && Has(i) && 1 <= At(i).count <= max
      && (i == 0 ==> At(i).start == 0)
      && (i > 0 ==> Has(i - 1) && At(i).start == End(i - 1))
    }

    // A free segment is in the list of its size.
    ghost predicate FreeAt(f: nat) {
      && f < |segs| && segs[f].count >= 1 && Log2(segs[f].count) < |lists|
      && f in lists[Log2(segs[f].count)]
    }

    ghost predicate ListedAt(j: int, f: nat, hole: int) {
      f in order && f < |segs| && f != hole && !segs[f].used && segs[f].count >= 1 && Log2(segs[f].count) == j
    }

    ghost predicate SpareAt(f: nat) {
      f < |segs| && f !in order && !segs[f].used
    }

    ghost predicate FreeIn(f: nat) {
      f in order && f < |segs| && !segs[f].used
    }
  }

  // The segments are consecutive and cover the managed pages.
  ghost predicate Chain(max: nat, managed: nat, s: Store) {
    && (forall i {:trigger s.ChainAt(max, i)} :: 0 <= i < |s.order| ==> s.ChainAt(max, i))
    && (s.order == [] ==> managed == 0)
    && (s.order != [] ==> s.Has(|s.order| - 1) && s.End(|s.order| - 1) == managed)
  }

  // Lists and order agree; the free segment hole is in no list.
  ghost predicate Agree(s: Store, hole: int) {
    && (forall f {:trigger s.FreeAt(f)} :: s.FreeIn(f) && f != hole ==> s.FreeAt(f))
    && (forall j, f {:trigger s.ListedAt(j, f, hole)} ::
          0 <= j < |s.lists| && f in s.lists[j] ==> s.ListedAt(j, f, hole))
    && (forall j {:trigger Distinct(s.lists[j])} :: 0 <= j < |s.lists| ==> Distinct(s.lists[j]))
    && Distinct(s.order) && Distinct(s.spare)
    && (forall f {:trigger s.SpareAt(f)} :: f in s.spare ==> s.SpareAt(f))
    && |s.order| + |s.spare| == |s.segs|
  }

  ghost predicate Fits(max: nat, managed: nat, s: Store, hole: int) {
    && max >= 1 && |s.lists| == Log2(max) + 1 && managed < |s.segs|
    && Chain(max, managed, s) && Agree(s, hole)
  }

  // --- Consequences ------------------------------------------------------------------

  lemma {:induction false} Later(max: nat, managed: nat, s: Store, i: nat, j: nat)
    requires Chain(max, managed, s) && i < j < |s.order|
    ensures s.Has(i) && s.Has(j) && s.End(i) <= s.At(j).start
    decreases j - i
  {
    assert s.ChainAt(max, i) && s.ChainAt(max, j);
    if i + 1 < j {
      Later(max, managed, s, i, j - 1);
      assert s.ChainAt(max, j - 1);
    }
  }

  lemma Below(max: nat, managed: nat, s: Store, i: nat)
    requires Chain(max, managed, s) && i < |s.order|
    ensures s.Has(i) && s.End(i) <= managed
  {
    assert s.ChainAt(max, i);
    var n := |s.order| - 1;
    if i < n {
      Later(max, managed, s, i, n);
      assert s.ChainAt(max, n);
    }
  }

  // There are at least as many pages in front of a segment as segments.
  lemma {:induction false} PageEach(max: nat, managed: nat, s: Store, i: nat, big: int)
    requires Chain(max, managed, s) && i < |s.order|
    requires s.Has(big) && s.At(big).count >= 2
    ensures s.Has(i) && s.End(i) >= i + 1 + (if big <= i then 1 else 0)
  {
    assert s.ChainAt(max, i);
    if i > 0 {
      PageEach(max, managed, s, i - 1, big);
    }
  }

  // A segment that can be split leaves a spare descriptor for its second half.
  lemma SpareForSplit(max: nat, managed: nat, s: Store, hole: int, i: nat)
    requires Fits(max, managed, s, hole) && s.Has(i) && s.At(i).count >= 2
    ensures |s.order| < managed && |s.spare| > 1
  {
    PageEach(max, managed, s, |s.order| - 1, i);
  }

  // The pages of the first n segments that are in use, or free.
  ghost function PagesIn(s: Store, n: nat, used: bool): nat {
    if n == 0 || !s.Has(n - 1) then 0
    else PagesIn(s, n - 1, used) + if s.At(n - 1).used == used then s.At(n - 1).count else 0
  }

  // No page is lost: used and free pages add up to the managed ones.
  lemma {:induction false} PagesConserved(max: nat, managed: nat, s: Store, n: nat)
    requires Chain(max, managed, s) && 0 < n <= |s.order|
    ensures s.Has(n - 1) && PagesIn(s, n, true) + PagesIn(s, n, false) == s.End(n - 1)
    ensures n == |s.order| ==> PagesIn(s, n, true) + PagesIn(s, n, false) == managed
  {
    assert s.ChainAt(max, n - 1);
    if n > 1 {
      PagesConserved(max, managed, s, n - 1);
    }
  }

  // --- Steps -------------------------------------------------------------------------

  ghost function Slot(s: Store, f: nat): int
    requires f < |s.segs| && s.segs[f].count >= 1
  {
    Log2(s.segs[f].count)
  }

  // lst_push_front on the list of the segment's size.
  ghost function Listed(s: Store, f: nat): Store
    requires f < |s.segs| && s.segs[f].count >= 1 && Slot(s, f) < |s.lists|
  {
    s.(lists := s.lists[Slot(s, f) := [f] + s.lists[Slot(s, f)]])
  }

  ghost function Unlisted(s: Store, f: nat): Store
    requires f < |s.segs| && s.segs[f].count >= 1 && Slot(s, f) < |s.lists|
  {
    s.(lists := s.lists[Slot(s, f) := Minus(s.lists[Slot(s, f)], f)])
  }

  lemma SameChain(max: nat, managed: nat, s: Store, t: Store)
    requires Chain(max, managed, s) && s.order == t.order && |s.segs| == |t.segs|
    requires forall f :: 0 <= f < |s.segs| ==> s.segs[f].(used := true) == t.segs[f].(used := true)
    ensures Chain(max, managed, t)
  {
    forall i | 0 <= i < |t.order|
      ensures t.ChainAt(max, i)
    {
      assert s.ChainAt(max, i);
    }
  }

  lemma UnlistFits(max: nat, managed: nat, s: Store, f: nat)
    requires Fits(max, managed, s, -1) && s.FreeIn(f)
    ensures s.FreeAt(f) && Fits(max, managed, Unlisted(s, f), f)
  {
    assert s.FreeAt(f);
    var t := Unlisted(s, f);
    SameChain(max, managed, s, t);
    forall g | t.FreeIn(g) && g != f
      ensures t.FreeAt(g)
    {
      assert s.FreeIn(g) && s.FreeAt(g);
    }
    forall j, g | 0 <= j < |t.lists| && g in t.lists[j]
      ensures t.ListedAt(j, g, f)
    {
      assert s.ListedAt(j, g, -1);
    }
    forall j | 0 <= j < |t.lists|
      ensures Distinct(t.lists[j])
    {
      assert Distinct(s.lists[j]);
      MinusDistinct(s.lists[j], f);
    }
    forall g | g in t.spare
      ensures t.SpareAt(g)
    {
      assert s.SpareAt(g);
    }
  }

  lemma ListFits(max: nat, managed: nat, s: Store, f: nat)
    requires Fits(max, managed, s, f) && s.FreeIn(f) && s.segs[f].count >= 1 && Slot(s, f) < |s.lists|
    ensures Fits(max, managed, Listed(s, f), -1)
  {
    var t := Listed(s, f);
    SameChain(max, managed, s, t);
    forall g | t.FreeIn(g)
      ensures t.FreeAt(g)
    {
      assert g != f ==> s.FreeIn(g) && s.FreeAt(g);
    }
    forall j, g | 0 <= j < |t.lists| && g in t.lists[j]
      ensures t.ListedAt(j, g, -1)
    {
      assert g in s.lists[j] ==> s.ListedAt(j, g, f);
    }
    forall j | 0 <= j < |t.lists|
      ensures Distinct(t.lists[j])
    {
      assert Distinct(s.lists[j]);
      assert f in s.lists[j] ==> s.ListedAt(j, f, f);
      if j == Slot(s, f) { DistinctCons(f, s.lists[j]); }
    }
    forall g | g in t.spare
      ensures t.SpareAt(g)
    {
      assert s.SpareAt(g);
    }
  }

  // The segment hole changes between free and in use.
  ghost function Marked(s: Store, f: nat, used: bool): Store
    requires f < |s.segs|
  {
    s.(segs := s.segs[f := s.segs[f].(used := used)])
  }

  lemma MarkFits(max: nat, managed: nat, s: Store, f: nat, used: bool)
    requires f < |s.segs| && f in s.order && s.segs[f].used != used
    requires Fits(max, managed, s, if used then f else -1)
    ensures Fits(max, managed, Marked(s, f, used), if used then -1 else f)
  {
    var t := Marked(s, f, used);
    var a, b := if used then f as int else -1, if used then -1 else f as int;
    SameChain(max, managed, s, t);
    forall g | t.FreeIn(g) && g != b
      ensures t.FreeAt(g)
    {
      assert s.FreeIn(g) && s.FreeAt(g);
    }
    forall j, g | 0 <= j < |t.lists| && g in t.lists[j]
      ensures t.ListedAt(j, g, b)
    {
      assert s.ListedAt(j, g, a);
    }
    forall g | g in t.spare
      ensures t.SpareAt(g)
    {
      assert s.SpareAt(g);
    }
  }

  // Segment i keeps its first n pages; a spare descriptor takes the others.
  ghost function Cut(s: Store, i: int, n: nat): Store
    requires s.Has(i) && n < s.At(i).count && |s.spare| > 0 && s.spare[0] < |s.segs|
  {
    var f, g := s.order[i], s.spare[0];
    var segs := s.segs[f := s.segs[f].(count := n)];
    Store(segs[g := segs[g].(start := s.At(i).start + n, count := s.At(i).count - n)],
          s.order[..i + 1] + [g] + s.order[i + 1..], s.lists, s.spare[1..])
  }

  lemma CutAt(s: Store, i: int, n: nat, j: int)
    requires s.Has(i) && n < s.At(i).count && Distinct(s.order) && |s.spare| > 0 && s.SpareAt(s.spare[0])
    requires 0 <= j <= |s.order| && (j <= i ==> s.Has(j)) && (j > i + 1 ==> s.Has(j - 1))
    ensures var t := Cut(s, i, n);
      t.Has(j) && t.At(j) == if j < i then s.At(j) else if j == i then s.At(i).(count := n)
        else if j == i + 1 then Seg(s.At(i).start + n, s.At(i).count - n, false) else s.At(j - 1)
  {
  }

  lemma CutChainAt(max: nat, managed: nat, s: Store, i: nat, n: nat, j: nat)
    requires Chain(max, managed, s) && s.Has(i) && 1 <= n < s.At(i).count && Distinct(s.order)
    requires |s.spare| > 0 && s.SpareAt(s.spare[0]) && j <= |s.order|
    ensures var t := Cut(s, i, n); t.ChainAt(max, j) && (j == |s.order| ==> t.End(j) == managed)
  {
    assert s.ChainAt(max, if j <= i then j else j - 1);
    CutAt(s, i, n, j);
    if j > 0 {
      assert s.ChainAt(max, if j - 1 <= i then j - 1 else j - 2);
      CutAt(s, i, n, j - 1);
    }
  }

  lemma CutChain(max: nat, managed: nat, s: Store, i: nat, n: nat)
    requires Chain(max, managed, s) && s.Has(i) && 1 <= n < s.At(i).count && Distinct(s.order)
    requires |s.spare| > 0 && s.SpareAt(s.spare[0])
    ensures Chain(max, managed, Cut(s, i, n))
  {
    var t := Cut(s, i, n);
    assert |t.order| == |s.order| + 1;
    forall j | 0 <= j < |t.order|
      ensures t.ChainAt(max, j) && (j == |s.order| ==> t.End(j) == managed)
    {
      CutChainAt(max, managed, s, i, n, j);
    }
  }

  lemma CutFits(max: nat, managed: nat, s: Store, i: nat, n: nat)
    requires Fits(max, managed, s, if s.Has(i) then s.order[i] else -1)
    requires s.Has(i) && 1 <= n < s.At(i).count && !s.At(i).used
    ensures |s.spare| > 0 && s.SpareAt(s.spare[0])
    ensures Slot(Cut(s, i, n), s.spare[0]) < |s.lists|
    ensures Fits(max, managed, Listed(Cut(s, i, n), s.spare[0]), s.order[i])
  {
    var f := s.order[i];
    SpareForSplit(max, managed, s, f, i);
    var g := s.spare[0];
    assert s.SpareAt(g) && s.ChainAt(max, i);
    var t := Cut(s, i, n);
    CutChain(max, managed, s, i, n);
    Log2Mono(s.At(i).count - n, max);
    var u := Listed(t, g);
    SameChain(max, managed, t, u);
    CutAgrees(max, managed, s, i, n);
  }

  lemma Log2Mono(a: nat, b: nat)
    requires 1 <= a <= b
    ensures Log2(a) <= Log2(b)
  {
    if Log2(b) < Log2(a) { Pow2Grows(Log2(b), Log2(a)); }
  }

  lemma CutAgrees(max: nat, managed: nat, s: Store, i: nat, n: nat)
    requires s.Has(i) && 1 <= n < s.At(i).count && Agree(s, s.order[i]) && !s.At(i).used
    requires |s.spare| > 0 && s.SpareAt(s.spare[0]) && Log2(s.At(i).count - n) < |s.lists|
    ensures Slot(Cut(s, i, n), s.spare[0]) < |s.lists|
    ensures Agree(Listed(Cut(s, i, n), s.spare[0]), s.order[i])
  {
    var f, g := s.order[i], s.spare[0];
    var t := Listed(Cut(s, i, n), g);
    assert s.order == s.order[..i + 1] + s.order[i + 1..];
    forall x: nat
      ensures x in t.order <==> x in s.order || x == g
    {
    }
    forall x | t.FreeIn(x) && x != f
      ensures t.FreeAt(x)
    {
      assert x != g ==> s.FreeIn(x) && s.FreeAt(x);
    }
    forall j, x | 0 <= j < |t.lists| && x in t.lists[j]
      ensures t.ListedAt(j, x, f)
    {
      assert x in s.lists[j] ==> s.ListedAt(j, x, f);
    }
    forall j | 0 <= j < |t.lists|
      ensures Distinct(t.lists[j])
    {
      assert Distinct(s.lists[j]);
      assert g in s.lists[j] ==> s.ListedAt(j, g, f);
      if j == Slot(Cut(s, i, n), g) { DistinctCons(g, s.lists[j]); }
    }
    InsertDistinct(s.order, i + 1, g);
    forall x | x in t.spare
      ensures t.SpareAt(x)
    {
      assert s.SpareAt(x);
    }
  }

  // Segment i takes over the pages of its successor, whose descriptor is spare again.
  ghost function Fused(s: Store, i: int): Store
    requires s.Has(i) && s.Has(i + 1)
  {
    var f, g := s.order[i], s.order[i + 1];
    Store(s.segs[f := s.segs[f].(count := s.segs[f].count + s.segs[g].count)],
          s.order[..i + 1] + s.order[i + 2..], s.lists, [g] + s.spare)
  }

  lemma FuseChain(max: nat, managed: nat, s: Store, i: nat)
    requires Chain(max, managed, s) && Distinct(s.order) && s.Has(i) && s.Has(i + 1)
    requires s.At(i).count + s.At(i + 1).count <= max
    ensures Chain(max, managed, Fused(s, i))
  {
    var t := Fused(s, i);
    assert s.ChainAt(max, i) && s.ChainAt(max, i + 1);
    forall j | 0 <= j < |t.order|
      ensures t.ChainAt(max, j)
    {
      FuseChainAt(max, managed, s, i, j);
    }
  }

  lemma FuseChainAt(max: nat, managed: nat, s: Store, i: nat, j: nat)
    requires Chain(max, managed, s) && Distinct(s.order) && s.Has(i) && s.Has(i + 1)
    requires s.At(i).count + s.At(i + 1).count <= max && j < |Fused(s, i).order|
    ensures Fused(s, i).ChainAt(max, j)
  {
    var k := if j <= i then j else j + 1;
    assert s.ChainAt(max, i) && s.ChainAt(max, i + 1) && s.ChainAt(max, k) && (k > 0 ==> s.ChainAt(max, k - 1));
    FusedAt(s, i, j);
    if j > 0 { FusedAt(s, i, j - 1); }
  }

  // Which segment stands at place j after a merge.
  lemma FusedAt(s: Store, i: nat, j: nat)
    requires Distinct(s.order) && s.Has(i) && s.Has(i + 1) && j < |Fused(s, i).order|
    requires s.Has(if j <= i then j else j + 1)
    ensures var t := Fused(s, i);
      && t.Has(j)
      && t.At(j) == if j < i then s.At(j) else if j == i then s.At(i).(count := s.At(i).count + s.At(i + 1).count)
                    else s.At(j + 1)
  {
    var t, k := Fused(s, i), if j <= i then j else j + 1;
    assert t.order[j] == s.order[k];
    assert j != i ==> s.order[k] != s.order[i];
  }

  lemma FuseFits(max: nat, managed: nat, s: Store, i: nat)
    requires s.Has(i) && s.Has(i + 1) && Fits(max, managed, s, s.order[i])
    requires !s.At(i).used && !s.At(i + 1).used && s.At(i).count + s.At(i + 1).count <= max
    ensures s.FreeAt(s.order[i + 1])
    ensures Fits(max, managed, Fused(Unlisted(s, s.order[i + 1]), i), s.order[i])
  {
    var f, g := s.order[i], s.order[i + 1];
    assert s.FreeIn(g) && s.FreeAt(g);
    var t := Unlisted(s, g);
    SameChain(max, managed, s, t);
    FuseChain(max, managed, t, i);
    FuseAgrees(s, i);
  }

  lemma FuseAgrees(s: Store, i: nat)
    requires s.Has(i) && s.Has(i + 1) && Agree(s, s.order[i]) && !s.At(i).used && !s.At(i + 1).used
    requires s.FreeAt(s.order[i + 1])
    ensures Agree(Fused(Unlisted(s, s.order[i + 1]), i), s.order[i])
  {
    var f, g := s.order[i], s.order[i + 1];
    var t := Fused(Unlisted(s, g), i);
    assert s.order == s.order[..i + 1] + [g] + s.order[i + 2..];
    assert g !in s.order[..i + 1] && g !in s.order[i + 2..];
    forall x | t.FreeIn(x) && x != f
      ensures t.FreeAt(x)
    {
      assert s.FreeIn(x) && s.FreeAt(x);
    }
    forall j, x | 0 <= j < |t.lists| && x in t.lists[j]
      ensures t.ListedAt(j, x, f)
    {
      assert s.ListedAt(j, x, f);
    }
    forall j | 0 <= j < |t.lists|
      ensures Distinct(t.lists[j])
    {
      assert Distinct(s.lists[j]);
      MinusDistinct(s.lists[j], g);
    }
    assert g in s.spare ==> s.SpareAt(g);
    DistinctCons(g, s.spare);
    forall x | x in t.spare
      ensures t.SpareAt(x)
    {
      assert x != g ==> s.SpareAt(x);
    }
  }

  // --- Building the chunk ---------------------------------------------------------------

  // A spare descriptor becomes the last segment, of n free pages.
  ghost function Appended(s: Store, managed: nat, n: nat): Store
    requires |s.spare| > 0 && s.spare[0] < |s.segs|
  {
    s.(segs := s.segs[s.spare[0] := Seg(managed, n, false)], order := s.order + [s.spare[0]], spare := s.spare[1..])
  }

  // Descriptors are left as long as pages are.
  lemma SpareForAppend(max: nat, managed: nat, s: Store, hole: int)
    requires Fits(max, managed, s, hole)
    ensures |s.order| <= managed && |s.spare| > 0
  {
    if s.order != [] {
      OneEach(max, managed, s, |s.order| - 1);
    }
  }

  lemma {:induction false} OneEach(max: nat, managed: nat, s: Store, i: nat)
    requires Chain(max, managed, s) && i < |s.order|
    ensures s.Has(i) && s.End(i) >= i + 1
  {
    assert s.ChainAt(max, i);
    if i > 0 {
      OneEach(max, managed, s, i - 1);
    }
  }

  lemma AppendFits(max: nat, managed: nat, s: Store, n: nat)
    requires Fits(max, managed, s, -1) && 1 <= n <= max && managed + n < |s.segs|
    ensures |s.spare| > 0 && s.spare[0] < |s.segs|
    ensures var t := Appended(s, managed, n);
      Slot(t, s.spare[0]) < |s.lists| && Fits(max, managed + n, Listed(t, s.spare[0]), -1)
  {
    SpareForAppend(max, managed, s, -1);
    var g := s.spare[0];
    assert s.SpareAt(g);
    var t := Appended(s, managed, n);
    AppendChain(max, managed, s, n);
    Log2Mono(n, max);
    forall f | t.FreeIn(f) && f != g
      ensures t.FreeAt(f)
    {
      assert s.FreeIn(f) && s.FreeAt(f);
    }
    forall j, f | 0 <= j < |t.lists| && f in t.lists[j]
      ensures t.ListedAt(j, f, g)
    {
      assert s.ListedAt(j, f, -1);
    }
    forall f | f in t.spare
      ensures t.SpareAt(f)
    {
      assert s.SpareAt(f);
    }
    ListFits(max, managed + n, t, g);
  }

  lemma AppendChain(max: nat, managed: nat, s: Store, n: nat)
    requires Chain(max, managed, s) && 1 <= n <= max && |s.spare| > 0 && s.SpareAt(s.spare[0])
    ensures Chain(max, managed + n, Appended(s, managed, n))
  {
    var t := Appended(s, managed, n);
    forall i | 0 <= i < |t.order|
      ensures t.ChainAt(max, i)
    {
      assert i < |s.order| ==> s.ChainAt(max, i);
    }
  }
}
