// The page allocator of src/pgpool.c.
module PgPool {
  import opened Arith
  import opened Lists
  import opened PgIndex

  // The place that rb_insert finds for a new key in the order of the tree.
  function Rank(segs: seq<Seg>, order: seq<nat>, key: nat): (r: nat)
    requires forall i :: 0 <= i < |order| ==> order[i] < |segs|
    ensures r <= |order|
  {
    if order != [] && segs[order[0]].start < key then 1 + Rank(segs, order[1..], key) else 0
  }

  lemma {:induction false} RankIs(segs: seq<Seg>, order: seq<nat>, key: nat, r: nat)
    requires forall i :: 0 <= i < |order| ==> order[i] < |segs|
    requires r <= |order| && forall i :: 0 <= i < r ==> segs[order[i]].start < key
    requires r < |order| ==> key <= segs[order[r]].start
    ensures Rank(segs, order, key) == r
  {
    if r > 0 {
      assert order[1..][..r - 1] == order[1..r];
      RankIs(segs, order[1..], key, r - 1);
    }
  }

  // The place of a descriptor in the order.
  function IndexOf(order: seq<nat>, f: nat): (i: nat)
    requires f in order
    ensures i < |order| && order[i] == f
  {
    if order[0] == f then 0 else 1 + IndexOf(order[1..], f)
  }

  lemma {:induction false} MinusAt(s: seq<nat>, i: nat)
    requires Distinct(s) && i < |s|
    ensures Minus(s, s[i]) == s[..i] + s[i + 1..]
  {
    if i == 0 {
      DistinctTail(s);
      MinusDistinct(s[1..], s[0]);
    } else {
      DistinctTail(s);
      MinusAt(s[1..], i - 1);
      assert s[1..][..i - 1] == s[1..i] && s[1..][i..] == s[i + 1..];
      assert s[..i] == [s[0]] + s[1..i];
    }
  }

  // Start and page count of every segment in use.
  ghost function Live(s: Store): set<(nat, nat)> {
    set f: nat | f in s.order && f < |s.segs| && s.segs[f].used :: (s.segs[f].start, s.segs[f].count)
  }

  lemma InLive(s: Store, f: nat)
    requires f in s.order && f < |s.segs| && s.segs[f].used
    ensures (s.segs[f].start, s.segs[f].count) in Live(s)
  {
  }

  ghost predicate SameSeg(s: Store, t: Store, f: nat) {
    f in s.order && f < |s.segs| && s.segs[f].used ==> f in t.order && f < |t.segs| && t.segs[f] == s.segs[f]
  }

  lemma SubLive(s: Store, t: Store)
    requires forall f {:trigger SameSeg(s, t, f)} :: SameSeg(s, t, f)
    ensures Live(s) <= Live(t)
  {
    forall x | x in Live(s)
      ensures x in Live(t)
    {
      var f: nat :| f in s.order && f < |s.segs| && s.segs[f].used && x == (s.segs[f].start, s.segs[f].count);
      assert SameSeg(s, t, f);
      InLive(t, f);
    }
  }

  // Segments in use lie inside the managed pages and do not overlap.
  lemma LiveDisjoint(max: nat, managed: nat, s: Store, x: (nat, nat), y: (nat, nat))
    requires Chain(max, managed, s) && x in Live(s) && y in Live(s)
    ensures 1 <= x.1 <= max && x.0 + x.1 <= managed
    ensures x == y || x.0 + x.1 <= y.0 || y.0 + y.1 <= x.0
  {
    var f: nat :| f in s.order && f < |s.segs| && x == (s.segs[f].start, s.segs[f].count);
    var g: nat :| g in s.order && g < |s.segs| && y == (s.segs[g].start, s.segs[g].count);
    var i, j := IndexOf(s.order, f), IndexOf(s.order, g);
    assert s.ChainAt(max, i);
    Below(max, managed, s, i);
    if i < j {
      Later(max, managed, s, i, j);
    } else if j < i {
      Later(max, managed, s, j, i);
    }
  }

  // No two segments start at the same page.
  lemma StartUnique(max: nat, managed: nat, s: Store, f: nat, g: nat)
    requires Chain(max, managed, s) && f in s.order && g in s.order
    ensures f < |s.segs| && g < |s.segs| && (s.segs[f].start == s.segs[g].start ==> f == g)
  {
    var i, j := IndexOf(s.order, f), IndexOf(s.order, g);
    assert s.ChainAt(max, i) && s.ChainAt(max, j);
    if i < j {
      Later(max, managed, s, i, j);
    } else if j < i {
      Later(max, managed, s, j, i);
    }
  }

  // Every segment of t other than f is one of s, unchanged.
  ghost predicate KeptAt(s: Store, t: Store, f: nat, h: nat) {
    h in t.order && h != f ==> h in s.order && h < |s.segs| && h < |t.segs| && t.segs[h] == s.segs[h]
  }

  // A segment of s that is not one of t was free, and its pages are among those of f.
  ghost predicate JoinedAt(s: Store, t: Store, f: nat, h: nat) {
    h in s.order && h !in t.order ==>
      && h < |s.segs| && f < |s.segs| && f < |t.segs| && !s.segs[h].used
      && s.segs[f].start + s.segs[f].count <= s.segs[h].start
      && s.segs[h].start + s.segs[h].count <= t.segs[f].start + t.segs[f].count
  }

  // Segment f has grown over free segments behind it, and nothing else has changed.
  ghost predicate Grown(s: Store, t: Store, f: nat) {
    && f in s.order && f < |s.segs| && f in t.order && f < |t.segs|
    && t.segs[f] == s.segs[f].(count := t.segs[f].count) && s.segs[f].count <= t.segs[f].count
    && (forall h {:trigger KeptAt(s, t, f, h)} :: KeptAt(s, t, f, h))
    && (forall h {:trigger JoinedAt(s, t, f, h)} :: JoinedAt(s, t, f, h))
  }

  lemma GrownSelf(s: Store, f: nat)
    requires f in s.order && f < |s.segs| && forall h :: h in s.order ==> h < |s.segs|
    ensures Grown(s, s, f)
  {
  }

  // Segment f was free and is in use; what it had beyond its pages now is a free segment
  // of its own, and nothing else has changed.
  ghost predicate GivenAt(s: Store, t: Store, f: nat, h: nat) {
    && (h in s.order && h != f ==> h in t.order && h < |s.segs| && h < |t.segs| && t.segs[h] == s.segs[h])
    && (h in t.order && h !in s.order ==>
          && h < |t.segs| && f < |s.segs| && f < |t.segs| && !t.segs[h].used
          && t.segs[h].start == s.segs[f].start + t.segs[f].count
          && t.segs[h].count == s.segs[f].count - t.segs[f].count)
  }

  ghost predicate Given(s: Store, t: Store, f: nat, used: bool) {
    && s.FreeIn(f) && f in t.order && f < |t.segs| && t.segs[f].count <= s.segs[f].count
    && t.segs[f] == Seg(s.segs[f].start, t.segs[f].count, used)
    && forall h {:trigger GivenAt(s, t, f, h)} :: GivenAt(s, t, f, h)
  }

  lemma GrownTwice(s: Store, t: Store, u: Store, f: nat)
    requires Grown(s, t, f) && Grown(t, u, f)
    ensures Grown(s, u, f)
  {
    forall h
      ensures KeptAt(s, u, f, h) && JoinedAt(s, u, f, h)
    {
      assert KeptAt(s, t, f, h) && KeptAt(t, u, f, h) && JoinedAt(s, t, f, h) && JoinedAt(t, u, f, h);
    }
  }

  lemma GrownLists(s: Store, t: Store, u: Store, f: nat)
    requires Grown(s, t, f) && t.order == u.order && t.segs == u.segs
    ensures Grown(s, u, f)
  {
    forall h
      ensures KeptAt(s, u, f, h) && JoinedAt(s, u, f, h)
    {
      assert KeptAt(s, t, f, h) && JoinedAt(s, t, f, h);
    }
  }

  lemma FusedGrows(max: nat, managed: nat, s: Store, t: Store, i: nat)
    requires Chain(max, managed, s) && s.Has(i) && s.Has(i + 1) && Distinct(s.order) && !s.At(i + 1).used
    requires t.order == Fused(s, i).order && t.segs == Fused(s, i).segs
    ensures Grown(s, t, s.order[i])
  {
    var f := s.order[i];
    assert s.ChainAt(max, i) && s.ChainAt(max, i + 1);
    assert s.order == s.order[..i + 1] + [s.order[i + 1]] + s.order[i + 2..];
    assert t.order[i] == f;
    forall h
      ensures KeptAt(s, t, f, h) && JoinedAt(s, t, f, h)
    {
      if h in s.order {
        var j := IndexOf(s.order, h);
        assert s.ChainAt(max, j);
        assert j < i + 1 ==> t.order[j] == h;
        assert j > i + 1 ==> t.order[j - 1] == h;
      }
    }
  }

  // Segment f is no longer in use and has taken over what follows.
  ghost predicate Released(s: Store, t: Store, f: nat) {
    f in s.order && f < |s.segs| && s.segs[f].used && Grown(Marked(s, f, false), t, f)
  }

  lemma GivenWhole(s: Store, t: Store, f: nat)
    requires s.FreeIn(f) && s.order == t.order && s.segs == t.segs && forall h :: h in s.order ==> h < |s.segs|
    ensures Given(s, t, f, false)
  {
  }

  lemma GivenLists(r: Store, s: Store, t: Store, f: nat)
    requires Given(s, t, f, false) && r.order == s.order && r.segs == s.segs
    ensures Given(r, t, f, false)
  {
    forall h
      ensures GivenAt(r, t, f, h)
    {
      assert GivenAt(s, t, f, h);
    }
  }

  lemma CutGives(s: Store, i: nat, n: nat, t: Store)
    requires s.Has(i) && s.FreeIn(s.order[i]) && 1 <= n < s.At(i).count && |s.spare| > 0 && s.SpareAt(s.spare[0])
    requires t.order == Cut(s, i, n).order && t.segs == Cut(s, i, n).segs && forall h :: h in s.order ==> h < |s.segs|
    ensures Given(s, t, s.order[i], false)
  {
    var f := s.order[i];
    assert t.order[i] == f;
    forall h
      ensures GivenAt(s, t, f, h)
    {
      if h in s.order {
        var j := IndexOf(s.order, h);
        assert t.order[if j <= i then j else j + 1] == h;
      }
    }
  }

  lemma GivenMarked(s: Store, t: Store, f: nat)
    requires Given(s, t, f, false)
    ensures Given(s, Marked(t, f, true), f, true)
  {
    forall h
      ensures GivenAt(s, Marked(t, f, true), f, h)
    {
      assert GivenAt(s, t, f, h);
    }
  }

  // Place j of list i is the first one, from the list for pages on, whose segment is large enough.
  ghost predicate FitAt(s: Store, pages: nat, i: nat, j: nat)
    requires pages >= 1
  {
    && Log2(pages) <= i < |s.lists| && j < |s.lists[i]| && s.lists[i][j] < |s.segs|
    && pages <= s.segs[s.lists[i][j]].count
    && (forall k, g {:trigger s.lists[k], TooSmall(s, g, pages)} ::
          Log2(pages) <= k < i && g in s.lists[k] ==> TooSmall(s, g, pages))
    && forall q :: 0 <= q < j ==> TooSmall(s, s.lists[i][q], pages)
  }

  lemma MarkLive(max: nat, managed: nat, s: Store, f: nat, used: bool)
    requires Chain(max, managed, s) && f in s.order && f < |s.segs| && s.segs[f].used != used
    ensures var x := (s.segs[f].start, s.segs[f].count);
      Live(Marked(s, f, used)) == if used then Live(s) + {x} else Live(s) - {x}
    ensures used ==> (s.segs[f].start, s.segs[f].count) !in Live(s)
  {
    var x, t := (s.segs[f].start, s.segs[f].count), Marked(s, f, used);
    forall g: nat | g in s.order && g < |s.segs| && g != f
      ensures (s.segs[g].start, s.segs[g].count) != x
    {
      StartUnique(max, managed, s, f, g);
    }
    assert used ==> (t.segs[f].start, t.segs[f].count) in Live(t);
    forall y | y in Live(s) && y != x
      ensures y in Live(t)
    {
      var g: nat :| g in s.order && g < |s.segs| && s.segs[g].used && y == (s.segs[g].start, s.segs[g].count);
      InLive(t, g);
    }
    forall y | y in Live(t) && y != x
      ensures y in Live(s)
    {
      var g: nat :| g in t.order && g < |t.segs| && t.segs[g].used && y == (t.segs[g].start, t.segs[g].count);
      InLive(s, g);
    }
  }

  lemma FuseLive(s: Store, i: int)
    requires s.Has(i) && s.Has(i + 1) && !s.At(i).used && !s.At(i + 1).used && Distinct(s.order)
    ensures Live(Fused(s, i)) == Live(s)
  {
    var t := Fused(s, i);
    assert s.order == s.order[..i + 1] + [s.order[i + 1]] + s.order[i + 2..];
    forall f
      ensures SameSeg(s, t, f) && SameSeg(t, s, f)
    {
    }
    SubLive(s, t);
    SubLive(t, s);
  }

  lemma CutLive(s: Store, i: int, n: nat)
    requires s.Has(i) && 1 <= n < s.At(i).count && !s.At(i).used && |s.spare| > 0 && s.SpareAt(s.spare[0])
    requires Log2(s.At(i).count - n) < |s.lists|
    ensures Slot(Cut(s, i, n), s.spare[0]) < |s.lists|
    ensures Live(Listed(Cut(s, i, n), s.spare[0])) == Live(s)
  {
    var t := Listed(Cut(s, i, n), s.spare[0]);
    assert s.order == s.order[..i + 1] + s.order[i + 1..];
    forall f
      ensures SameSeg(s, t, f) && SameSeg(t, s, f)
    {
    }
    SubLive(s, t);
    SubLive(t, s);
  }

  ghost predicate TooSmall(s: Store, f: nat, pages: nat) {
    f < |s.segs| && s.segs[f].count < pages
  }

  // Some free segment has enough pages.
  ghost predicate Fitting(s: Store, pages: nat) {
    exists f: nat :: s.FreeIn(f) && !TooSmall(s, f, pages)
  }

  class Pool {
    const max: nat
    const pgSize: nat
    const chunk: nat
    const managed: nat
    // What is_2power says of 1, where the source takes the logarithm of 0.
    const unitIsPower: bool

    var segs: seq<Seg>
    var order: seq<nat>
    var lists: seq<seq<nat>>
    var spare: seq<nat>
    var allocCount: nat
    var freeCount: nat

    ghost function S(): Store
      reads `segs, `order, `lists, `spare
    {
      Store(segs, order, lists, spare)
    }

    ghost predicate FitsBut(hole: int)
      reads this
    {
      Fits(max, managed, S(), hole) && pgSize > 0
    }

    ghost predicate Valid()
      reads this
    {
      FitsBut(-1)
    }

    // _pgp_init_chunk, once it has laid out n descriptors and the chunk.
    constructor (n: nat, max: nat, pgSize: nat, chunk: nat, unitIsPower: bool)
      requires n >= 1 && max >= 1 && pgSize > 0
      ensures Valid() && Live(S()) == {}
      ensures this.max == max && this.pgSize == pgSize && this.chunk == chunk
      ensures managed == (if n > max then n - max else 0) && |segs| == n
      ensures forall i :: 0 <= i < |order| - 1 ==> order[i] < |segs| && segs[order[i]].count == max
    {
      this.max, this.pgSize, this.chunk, this.unitIsPower := max, pgSize, chunk, unitIsPower;
      managed := if n > max then n - max else 0;
      segs, order, spare := seq(n, _ => Seg(0, 0, false)), [], seq(n, i => i);
      lists := seq(Log2(max) + 1, _ => []);
      allocCount, freeCount := 0, 0;
      new;
      ghost var s := S();
      forall f | f in s.spare
        ensures s.SpareAt(f)
      {
      }
      InitChunk(n);
    }

    // All segments are free and cover the first done pages.
    ghost predicate Partial(done: nat)
      reads this
    {
      Fits(max, done, S(), -1) && pgSize > 0 && Live(S()) == {}
    }

    // The first n segments are of the largest size.
    ghost predicate Largest(n: int)
      reads `order, `segs
    {
      n <= |order| && forall i :: 0 <= i < n ==> order[i] < |segs| && segs[order[i]].count == max
    }

    method InitSegment(ghost done: nat, page: nat, n: nat)
      requires Partial(done) && page == done && 1 <= n <= max && done + n < |segs| && Largest(|order|)
      modifies this
      ensures Partial(done + n) && |segs| == old(|segs|)
      ensures |order| == |old(order)| + 1 && Largest(|order| - 1) && (n == max ==> Largest(|order|))
    {
      AppendHere(done, n);
      ghost var s := S();
      var g := spare[0];
      spare := spare[1..];
      segs := segs[g := Seg(page, n, segs[g].used)];
      LinkRbn(g);
      LinkFln(g);
      assert S() == Listed(Appended(s, done, n), g);
    }

    lemma AppendHere(done: nat, n: nat)
      requires Partial(done) && 1 <= n <= max && done + n < |segs| && Largest(|order|)
      ensures |spare| > 0 && S().SpareAt(spare[0])
      ensures var t := Appended(S(), done, n);
        && (forall j :: 0 <= j < |order| ==> order[j] < |t.segs|) && Rank(t.segs, order, done) == |order|
        && t.order == order[..|order|] + [spare[0]] + order[|order|..] && Slot(t, spare[0]) < |t.lists|
        && Fits(max, done + n, Listed(t, spare[0]), -1) && Live(Listed(t, spare[0])) == {}
        && forall i :: 0 <= i <= |order| ==>
             t.order[i] < |t.segs| && t.segs[t.order[i]].count == if i < |order| then max else n
    {
      AppendFits(max, done, S(), n);
      AppendRank(done, n);
      var t := Appended(S(), done, n);
      forall x | x in Live(Listed(t, spare[0]))
        ensures false
      {
        var f: nat :| f in t.order && f < |t.segs| && t.segs[f].used;
        InLive(S(), f);
      }
    }

    lemma AppendRank(done: nat, n: nat)
      requires Partial(done) && |spare| > 0 && spare[0] < |segs|
      ensures S().SpareAt(spare[0])
      ensures var t := Appended(S(), done, n);
        (forall j :: 0 <= j < |order| ==> order[j] < |t.segs|) && Rank(t.segs, order, done) == |order|
        && order[..|order|] + [spare[0]] + order[|order|..] == order + [spare[0]]
    {
      var t := Appended(S(), done, n);
      assert S().SpareAt(spare[0]);
      forall j | 0 <= j < |order|
        ensures order[j] < |t.segs| && t.segs[order[j]].start < done
      {
        assert S().ChainAt(max, j);
        Below(max, done, S(), j);
      }
      RankIs(t.segs, order, done, |order|);
    }

    // The loop that fills the chunk with segments of the largest size.
    method InitChunk(n: nat)
      requires Partial(0) && |segs| == n && order == [] && n >= 1 && managed == if n > max then n - max else 0
      modifies this
      ensures Partial(managed) && |segs| == n && Largest(|order| - 1)
    {
      var remain: int := n - max;
      var page := 0;
      while remain > 0
        invariant remain <= 0 ==> page == managed
        invariant remain > 0 ==> page + remain == managed
        invariant Partial(page) && |segs| == n && Largest(|order| - 1) && (remain > 0 ==> Largest(|order|))
        decreases remain
      {
        var count := if remain >= max then max else remain;
        InitSegment(page, page, count);
        page := page + count;
        remain := remain - count;
      }
    }

    // _link_fln
    method LinkFln(f: nat)
      requires f < |segs| && segs[f].count >= 1 && Log2(segs[f].count) < |lists|
      modifies `lists
      ensures S() == Listed(old(S()), f)
    {
      var idx := Log2(segs[f].count);
      lists := lists[idx := [f] + lists[idx]];
    }

    // _unlink_fln
    method UnlinkFln(f: nat)
      requires f < |segs| && segs[f].count >= 1 && Log2(segs[f].count) < |lists|
      modifies `lists
      ensures S() == Unlisted(old(S()), f)
    {
      var idx := Log2(segs[f].count);
      lists := lists[idx := Minus(lists[idx], f)];
    }

    // _link_rbn
    method LinkRbn(f: nat)
      requires f < |segs| && forall i :: 0 <= i < |order| ==> order[i] < |segs|
      modifies `order
      ensures var r := Rank(segs, old(order), segs[f].start);
        order == old(order)[..r] + [f] + old(order)[r..]
    {
      var r := Rank(segs, order, segs[f].start);
      order := order[..r] + [f] + order[r..];
    }

    // The new descriptor of a split goes right behind the one it is cut from.
    lemma CutRank(i: nat, n: nat)
      requires Chain(max, managed, S()) && S().Has(i) && 1 <= n < S().At(i).count && Distinct(order)
      requires |spare| > 0 && S().SpareAt(spare[0])
      ensures var t := Cut(S(), i, n);
        (forall j :: 0 <= j < |order| ==> order[j] < |t.segs|) && Rank(t.segs, order, S().At(i).start + n) == i + 1
    {
      var s, t := S(), Cut(S(), i, n);
      forall j | 0 <= j < |order|
        ensures order[j] < |t.segs|
        ensures j <= i ==> t.segs[order[j]].start < s.At(i).start + n
        ensures j == i + 1 ==> s.At(i).start + n <= t.segs[order[j]].start
      {
        assert s.ChainAt(max, j);
        if j < i { Later(max, managed, s, j, i); } else if i < j { Later(max, managed, s, i, j); }
      }
      RankIs(t.segs, order, s.At(i).start + n, i + 1);
    }

    // _fetch_fln
    method FetchFln(idx: nat) returns (f: nat)
      requires Valid() && idx < |lists| && lists[idx] != []
      modifies `lists
      ensures f < |segs| && FitsBut(f) && f in order && !segs[f].used && Log2Is(segs[f].count, idx)
      ensures f == old(lists)[idx][0]
    {
      f := lists[idx][0];
      assert S().ListedAt(idx, f, -1) && Distinct(lists[idx]);
      UnlistFits(max, managed, S(), f);
      MinusAt(lists[idx], 0);
      assert Minus(lists[idx], f) == lists[idx][1..];
      lists := lists[idx := lists[idx][1..]];
    }

    ghost predicate Log2Is(v: nat, k: nat) {
      v >= 1 && Log2(v) == k
    }

    // The search of _take_free_node through the lists from idx on.
    method Scan(pages: nat) returns (f: int, ghost at: (nat, nat))
      requires Valid() && pages >= 1
      ensures f != -1 ==> FitAt(S(), pages, at.0, at.1) && f == lists[at.0][at.1]
      ensures f == -1 ==> forall g {:trigger TooSmall(S(), g, pages)} :: S().FreeIn(g) ==> TooSmall(S(), g, pages)
      ensures f != -1 ==> 0 <= f < |segs| && S().FreeIn(f) && pages <= segs[f].count
    {
      var idx := Log2(pages);
      at := (0, 0);
      while idx < |lists|
        invariant Log2(pages) <= idx
        invariant forall k, g {:trigger lists[k], TooSmall(S(), g, pages)} ::
          Log2(pages) <= k < idx && k < |lists| && g in lists[k] ==> TooSmall(S(), g, pages)
      {
        var j := 0;
        while j < |lists[idx]|
          invariant j <= |lists[idx]|
          invariant forall i :: 0 <= i < j ==> TooSmall(S(), lists[idx][i], pages)
        {
          f := lists[idx][j];
          assert f in S().lists[idx] && S().ListedAt(idx, f, -1);
          at := (idx, j);
          if segs[f].count >= pages && !segs[f].used { return; }
          j := j + 1;
        }
        idx := idx + 1;
      }
      f := -1;
      forall g: nat | S().FreeIn(g)
        ensures TooSmall(S(), g, pages)
      {
        assert S().FreeAt(g);
        if segs[g].count >= pages {
          Log2Mono(pages, segs[g].count);
          assert g in lists[Log2(segs[g].count)];
        }
      }
    }

    // What is_2power says of a page count.
    function PowerOf2(pages: nat): bool
      requires pages >= 1
    {
      if pages == 1 then unitIsPower else Is2Power(pages)
    }

    lemma PowerOf2Is(pages: nat)
      requires pages >= 2
      ensures PowerOf2(pages) <==> exists k :: pages == Pow2(k)
    {
      Is2PowerIffPower(pages);
    }

    // Segment f is what is to be taken for pages, n its pages then: the first one of the
    // list for pages as it is when pages is a power of two and the list is not empty;
    // otherwise the first one that is large enough, cut to size.
    ghost predicate Picked(s: Store, pages: nat, f: nat, n: nat)
      requires pages >= 1
    {
      if PowerOf2(pages) && Log2(pages) < |s.lists| && s.lists[Log2(pages)] != [] then
        f == s.lists[Log2(pages)][0] && f < |s.segs| && n == s.segs[f].count
      else
        n == pages && exists i: nat, j: nat :: FitAt(s, pages, i, j) && f == s.lists[i][j]
    }

    // The writes of a split up to the new descriptor's place in the tree.
    method CutOff(f: nat, pages: nat, ghost i: nat)
      requires S().Has(i) && order[i] == f && 1 <= pages < segs[f].count
      requires |spare| > 0 && spare[0] < |segs| && spare[0] != f
      requires forall j :: 0 <= j < |order| ==> order[j] < |segs|
      requires Rank(Cut(S(), i, pages).segs, order, segs[f].start + pages) == i + 1
      modifies `segs, `order, `spare
      ensures S() == Cut(old(S()), i, pages)
    {
      ghost var s := S();
      var g := spare[0];
      spare := spare[1..];
      segs := segs[g := segs[g].(start := segs[f].start + pages)];
      segs := segs[g := segs[g].(count := segs[f].count - pages)];
      segs := segs[f := segs[f].(count := pages)];
      assert segs == Cut(s, i, pages).segs;
      LinkRbn(g);
    }

    // The split at the end of _take_free_node.
    method Split(f: nat, pages: nat)
      requires FitsBut(f) && f < |segs| && f in order && !segs[f].used && 1 <= pages < segs[f].count
      modifies `segs, `order, `lists, `spare
      ensures FitsBut(f) && f < |segs| && f in order && segs[f] == old(segs)[f].(count := pages)
      ensures Live(S()) == old(Live(S())) && Given(old(S()), S(), f, false)
    {
      ghost var i := IndexOf(order, f);
      CutPlace(f, i, pages);
      CutHere(f, i, pages);
      var g := spare[0];
      CutOff(f, pages, i);
      LinkFln(g);
    }

    lemma CutPlace(f: nat, i: nat, pages: nat)
      requires FitsBut(f) && f < |segs| && S().Has(i) && order[i] == f && !segs[f].used && 1 <= pages < segs[f].count
      ensures |spare| > 0 && spare[0] < |segs| && spare[0] != f && S().SpareAt(spare[0])
      ensures forall j :: 0 <= j < |order| ==> order[j] < |segs|
      ensures Rank(Cut(S(), i, pages).segs, order, segs[f].start + pages) == i + 1
    {
      CutFits(max, managed, S(), i, pages);
      CutRank(i, pages);
    }

    lemma CutHere(f: nat, i: nat, pages: nat)
      requires FitsBut(f) && f < |segs| && S().Has(i) && order[i] == f && !segs[f].used && 1 <= pages < segs[f].count
      requires |spare| > 0 && spare[0] < |segs| && spare[0] != f && S().SpareAt(spare[0])
      ensures var g, t := spare[0], Cut(S(), i, pages);
        && g < |t.segs| && t.segs[g].count >= 1 && Slot(t, g) < |t.lists|
        && Fits(max, managed, Listed(t, g), f) && Live(Listed(t, g)) == Live(S())
        && f in t.order && t.segs[f] == segs[f].(count := pages) && Given(S(), Listed(t, g), f, false)
    {
      CutFits(max, managed, S(), i, pages);
      CutLive(S(), i, pages);
      CutGivesHere(i, pages);
      assert Cut(S(), i, pages).order[i] == f;
    }

    lemma CutGivesHere(i: nat, pages: nat)
      requires Chain(max, managed, S()) && S().Has(i) && S().FreeIn(order[i]) && 1 <= pages < S().At(i).count
      requires |spare| > 0 && S().SpareAt(spare[0]) && Slot(Cut(S(), i, pages), spare[0]) < |lists|
      ensures Given(S(), Listed(Cut(S(), i, pages), spare[0]), order[i], false)
    {
      InBounds();
      CutGives(S(), i, pages, Listed(Cut(S(), i, pages), spare[0]));
    }

    lemma InBounds()
      requires Chain(max, managed, S())
      ensures forall h :: h in order ==> h < |segs|
    {
      forall h | h in order
        ensures h < |segs|
      {
        assert S().ChainAt(max, IndexOf(order, h));
      }
    }

    // _take_free_node: -1 when no free segment has enough pages; otherwise a
    // segment of exactly that many, or for a power of two one that may be
    // larger, but less than twice as large.
    method TakeFreeNode(pages: nat) returns (f: int)
      requires Valid() && pages >= 1 && (PowerOf2(pages) ==> Log2(pages) < |lists|)
      modifies `segs, `order, `lists, `spare
      ensures f == -1 ==> S() == old(S())
      ensures f == -1 ==> forall g {:trigger TooSmall(S(), g, pages)} :: S().FreeIn(g) ==> TooSmall(S(), g, pages)
      ensures f != -1 ==> 0 <= f < |segs| && FitsBut(f) && f in order && !segs[f].used && Live(S()) == old(Live(S()))
      ensures f != -1 ==> pages <= segs[f].count < 2 * pages && (segs[f].count > pages ==> PowerOf2(pages))
      ensures f != -1 ==> f < |old(segs)| && old(S().FreeIn(f)) && segs[f].start == old(segs)[f].start
      ensures f != -1 ==> pages <= old(segs)[f].count
      ensures f != -1 ==> Given(old(S()), S(), f, false) && Picked(old(S()), pages, f, segs[f].count)
    {
      InBounds();
      if PowerOf2(pages) && lists[Log2(pages)] != [] {
        f := FetchFln(Log2(pages));
        PowerCount(pages, segs[f].count);
        ListsOnly(old(S()), S());
        GivenWhole(old(S()), S(), f);
        return;
      }
      ghost var at;
      f, at := Scan(pages);
      if f == -1 { return; }
      UnlistFits(max, managed, S(), f);
      UnlinkFln(f);
      ListsOnly(old(S()), S());
      GivenWhole(old(S()), S(), f);
      ghost var s := S();
      if segs[f].count > pages {
        Split(f, pages);
        GivenLists(old(S()), s, S(), f);
      }
    }

    // A list for a power of two holds segments of less than twice the size.
    lemma PowerCount(pages: nat, count: nat)
      requires pages >= 1 && PowerOf2(pages) && count >= 1 && Log2(count) == Log2(pages)
      ensures pages <= count < 2 * pages
    {
      if pages > 1 {
        Is2PowerIffPower(pages);
        var k :| pages == Pow2(k);
        Log2Unique(pages, k);
      }
    }

    lemma ListsOnly(s: Store, t: Store)
      requires s.segs == t.segs && s.order == t.order
      ensures Live(s) == Live(t)
    {
    }

    method SetUsed(f: nat, used: bool)
      requires f < |segs|
      modifies `segs
      ensures S() == Marked(old(S()), f, used)
    {
      segs := segs[f := segs[f].(used := used)];
    }

    // rb_succ on the tree of segments
    function Succ(f: nat): (g: int)
      requires f in order
      reads `order
    {
      if IndexOf(order, f) + 1 < |order| then order[IndexOf(order, f) + 1] else -1
    }

    // It starts where f ends; there is none exactly at the end of the managed pages.
    lemma SuccIsNext(f: nat)
      requires Chain(max, managed, S()) && f in order && f < |segs|
      ensures Succ(f) == -1 <==> segs[f].start + segs[f].count == managed
      ensures Succ(f) != -1 ==>
        && Succ(f) in order && 0 <= Succ(f) < |segs| && segs[Succ(f)].start == segs[f].start + segs[f].count
    {
      var i := IndexOf(order, f);
      assert S().ChainAt(max, i);
      if i + 1 < |order| {
        assert S().ChainAt(max, i + 1);
        Below(max, managed, S(), i + 1);
      }
    }

    // The writes of a merge behind the unlinking from the free list.
    method Absorb(f: nat, g: nat, ghost i: nat)
      requires S().Has(i) && S().Has(i + 1) && order[i] == f && order[i + 1] == g && Distinct(order)
      modifies `segs, `order, `spare
      ensures S() == Fused(old(S()), i)
    {
      MinusAt(order, i + 1);
      order := Minus(order, g);
      segs := segs[f := segs[f].(count := segs[f].count + segs[g].count)];
      spare := [g] + spare;
    }

    // _merge_free_node
    method MergeFreeNode(f: nat, g: nat) returns (rslt: int)
      requires FitsBut(f) && f < |segs| && f in order && !segs[f].used && Succ(f) == g
      requires g < |segs| && !segs[g].used && segs[f].count + segs[g].count <= max
      modifies `segs, `order, `lists, `spare
      ensures rslt == 0 && FitsBut(f) && f < |segs| && f in order && |order| < |old(order)|
      ensures segs[f] == old(segs)[f].(count := old(segs)[f].count + old(segs)[g].count)
      ensures Live(S()) == old(Live(S())) && Grown(old(S()), S(), f)
    {
      ghost var i := IndexOf(order, f);
      FuseHere(f, g, i);
      if segs[g].start != segs[f].start + segs[f].count { return -1; }
      UnlinkFln(g);
      Absorb(f, g, i);
      return 0;
    }

    lemma FuseHere(f: nat, g: nat, i: nat)
      requires FitsBut(f) && S().Has(i) && S().Has(i + 1) && order[i] == f && order[i + 1] == g
      requires !segs[f].used && !segs[g].used && segs[f].count + segs[g].count <= max
      ensures segs[g].start == segs[f].start + segs[f].count
      ensures segs[g].count >= 1 && Log2(segs[g].count) < |lists| && Distinct(order)
      ensures var t := Fused(Unlisted(S(), g), i);
        && Fits(max, managed, t, f) && Live(t) == Live(S()) && Grown(S(), t, f)
        && f in t.order && |t.order| < |order|
        && t.segs[f] == segs[f].(count := segs[f].count + segs[g].count)
    {
      var s := S();
      assert s.ChainAt(max, i) && s.ChainAt(max, i + 1);
      FuseFits(max, managed, s, i);
      FuseLive(Unlisted(s, g), i);
      ListsOnly(s, Unlisted(s, g));
      var t := Fused(Unlisted(s, g), i);
      assert t.order[i] == f;
      FusedGrows(max, managed, s, t, i);
    }

    // The segment that starts where f ends is in use, or too large to be merged with.
    ghost predicate Stuck(f: nat)
      requires f in order && f < |segs|
      reads `order, `segs
    {
      forall g :: g in order && g < |segs| && segs[g].start == segs[f].start + segs[f].count ==>
        segs[g].used || segs[f].count + segs[g].count > max
    }

    lemma StuckBy(f: nat)
      requires Chain(max, managed, S()) && f in order && f < |segs|
      requires var g := Succ(f); g == -1 || (0 <= g < |segs| && (segs[g].used || segs[f].count + segs[g].count > max))
      ensures Stuck(f)
    {
      SuccIsNext(f);
      forall g | g in order && g < |segs| && segs[g].start == segs[f].start + segs[f].count
        ensures segs[g].used || segs[f].count + segs[g].count > max
      {
        var i := IndexOf(order, g);
        assert S().ChainAt(max, i);
        Below(max, managed, S(), i);
        StartUnique(max, managed, S(), g, Succ(f));
      }
    }

    // The merge loop of _return_free_node.
    method MergeAll(f: nat)
      requires FitsBut(f) && f < |segs| && f in order && !segs[f].used
      modifies `segs, `order, `lists, `spare
      ensures FitsBut(f) && f < |segs| && f in order && !segs[f].used && Live(S()) == old(Live(S()))
      ensures Grown(old(S()), S(), f) && Stuck(f)
    {
      InBounds();
      GrownSelf(S(), f);
      var succ, rslt := Succ(f), 0;
      while succ != -1 && rslt >= 0
        invariant FitsBut(f) && f < |segs| && f in order && !segs[f].used && Live(S()) == old(Live(S()))
        invariant Grown(old(S()), S(), f) && rslt == 0 && succ == Succ(f)
        decreases |order|
      {
        assert S().ChainAt(max, IndexOf(order, f) + 1);
        if segs[succ].used || segs[f].count + segs[succ].count > max { break; }
        ghost var s := S();
        rslt := MergeFreeNode(f, succ);
        GrownTwice(old(S()), s, S(), f);
        succ := Succ(f);
      }
      StuckBy(f);
    }

    // The number of pages that hold size bytes.
    function Pages(size: nat): (pages: nat)
      requires pgSize > 0
      ensures pages * pgSize >= size && (pages > 0 ==> (pages - 1) * pgSize < size)
    {
      CeilBounds(size, pgSize);
      (size + pgSize - 1) / pgSize
    }

    // The address of a page.
    function AddrOf(page: nat): (a: nat)
      ensures a >= chunk
    {
      MulMono(0, page, pgSize);
      chunk + page * pgSize
    }

    // The segment at x was free and large enough, and now is in use.
    method AllocPages(pages: nat) returns (f: int, ghost x: (nat, nat))
      requires Valid() && pages >= 1 && (Log2(pages) < |lists| || !PowerOf2(pages))
      modifies `segs, `order, `lists, `spare
      ensures Valid() && (f == -1 ==> S() == old(S()))
      ensures f != -1 <==> Fitting(old(S()), pages)
      ensures f != -1 ==> 0 <= f < |segs| && segs[f].start == x.0
      ensures f != -1 ==> x !in old(Live(S())) && Live(S()) == old(Live(S())) + {x}
      ensures f != -1 ==> pages <= x.1 < 2 * pages && (x.1 > pages ==> PowerOf2(pages))
      ensures f != -1 ==> segs[f].count == x.1 && Given(old(S()), S(), f, true) && Picked(old(S()), pages, f, x.1)
    {
      x := (0, 0);
      f := TakeFreeNode(pages);
      if f == -1 { return; }
      x := (segs[f].start, segs[f].count);
      MarkFits(max, managed, S(), f, true);
      MarkLive(max, managed, S(), f, true);
      GivenMarked(old(S()), S(), f);
      SetUsed(f, true);
    }

    // The bytes of a segment in use lie among those of the managed pages.
    lemma InChunk(x: (nat, nat))
      requires Valid() && x in Live(S())
      ensures chunk <= chunk + x.0 * pgSize
      ensures chunk + x.0 * pgSize + x.1 * pgSize <= chunk + managed * pgSize
    {
      LiveDisjoint(max, managed, S(), x, x);
      MulMono(0, x.0, pgSize);
      SumOfProducts(x.0, x.1, pgSize);
      MulMono(x.0 + x.1, managed, pgSize);
    }

    // Two segments in use share no byte.
    lemma BytesApart(x: (nat, nat), y: (nat, nat))
      requires Valid() && x in Live(S()) && y in Live(S()) && x != y
      ensures chunk + x.0 * pgSize + x.1 * pgSize <= chunk + y.0 * pgSize ||
              chunk + y.0 * pgSize + y.1 * pgSize <= chunk + x.0 * pgSize
    {
      LiveDisjoint(max, managed, S(), x, y);
      SumOfProducts(x.0, x.1, pgSize);
      SumOfProducts(y.0, y.1, pgSize);
      if x.0 + x.1 <= y.0 { MulMono(x.0 + x.1, y.0, pgSize); } else { MulMono(y.0 + y.1, x.0, pgSize); }
    }

    // pgp_alloc: 0 exactly when no free segment has enough pages; otherwise
    // the address of a segment that was not in use.
    method Alloc(size: nat) returns (payload: nat, ghost x: (nat, nat))
      requires Valid() && chunk > 0 && size >= 1
      requires Log2(Pages(size)) < |lists| || !PowerOf2(Pages(size))
      modifies this
      ensures Valid() && (payload == 0 ==> S() == old(S()))
      ensures payload != 0 <==> Fitting(old(S()), Pages(size))
      ensures payload != 0 ==> payload == chunk + x.0 * pgSize && size <= x.1 * pgSize
      ensures payload != 0 ==> chunk <= payload && payload + x.1 * pgSize <= chunk + managed * pgSize
      ensures payload != 0 ==> x !in old(Live(S())) && Live(S()) == old(Live(S())) + {x}
      ensures payload != 0 ==> exists f: nat ::
        Given(old(S()), S(), f, true) && x == (segs[f].start, segs[f].count) &&
        Picked(old(S()), Pages(size), f, x.1)
      ensures payload != 0 ==> Pages(size) <= x.1 < 2 * Pages(size) && (x.1 > Pages(size) ==> PowerOf2(Pages(size)))
      ensures freeCount == old(freeCount) && allocCount == old(allocCount) + if payload == 0 then 0 else 1
    {
      payload := 0;
      var f;
      f, x := AllocPages(Pages(size));
      if f == -1 { return; }
      InChunk(x);
      MulMono(Pages(size), x.1, pgSize);
      payload := AddrOf(segs[f].start);
      allocCount := allocCount + 1;
    }

    // rb_search on the tree of segments, whose keys are their addresses.
    method FromPayload(payload: nat) returns (f: int)
      requires Valid()
      ensures f == -1 ==> forall g :: g in order ==> g < |segs| && AddrOf(segs[g].start) != payload
      ensures f != -1 ==> 0 <= f < |segs| && f in order && AddrOf(segs[f].start) == payload
    {
      var i := 0;
      while i < |order|
        invariant i <= |order|
        invariant forall j :: 0 <= j < i ==> order[j] < |segs| && AddrOf(segs[order[j]].start) != payload
      {
        assert S().ChainAt(max, i);
        if AddrOf(segs[order[i]].start) == payload { return order[i]; }
        i := i + 1;
      }
      return -1;
    }

    // pgp_free: 0 exactly for the address of a segment in use, which then is
    // no longer one; the free segments behind it join it as far as they fit, so
    // that the segment at that address then has no successor to be merged with.
    method Free(payload: nat) returns (rslt: int)
      requires Valid() && chunk % pgSize == 0
      modifies this
      ensures Valid() && (rslt == 0 || rslt == -1)
      ensures rslt == -1 ==> S() == old(S()) && forall x :: x in Live(S()) ==> chunk + x.0 * pgSize != payload
      ensures rslt == 0 ==> exists x ::
        x in old(Live(S())) && chunk + x.0 * pgSize == payload && Live(S()) == old(Live(S())) - {x}
      ensures rslt == 0 ==> exists f: nat ::
        Released(old(S()), S(), f) && chunk + segs[f].start * pgSize == payload && Stuck(f) && ListHead(f)
      ensures allocCount == old(allocCount) && freeCount == old(freeCount) + if rslt == 0 then 1 else 0
    {
      if payload % pgSize != 0 {
        NotAPage(payload);
        return -1;
      }
      var f := FromPayload(payload);
      if f == -1 || !segs[f].used {
        NoSuchSegment(f, payload);
        return -1;
      }
      InLive(S(), f);
      Release(f);
      freeCount := freeCount + 1;
      return 0;
    }

    // The segment f is no longer in use, and takes over what it can.
    method Release(f: nat)
      requires Valid() && f < |segs| && f in order && segs[f].used
      modifies `segs, `order, `lists, `spare
      ensures Valid() && Released(old(S()), S(), f) && Stuck(f) && ListHead(f)
      ensures Live(S()) == old(Live(S())) - {(old(segs)[f].start, old(segs)[f].count)}
    {
      MarkFits(max, managed, S(), f, false);
      MarkLive(max, managed, S(), f, false);
      SetUsed(f, false);
      ghost var s := S();
      MergeAll(f);
      ghost var t := S();
      Relist(f);
      GrownLists(s, t, S(), f);
    }

    // Segment f comes first in the list of its size.
    ghost predicate ListHead(f: nat)
      reads `segs, `lists
    {
      && f < |segs| && segs[f].count >= 1 && Log2(segs[f].count) < |lists|
      && lists[Log2(segs[f].count)] != [] && lists[Log2(segs[f].count)][0] == f
    }

    method Relist(f: nat)
      requires FitsBut(f) && f < |segs| && f in order && !segs[f].used
      modifies `lists
      ensures Valid() && Live(S()) == old(Live(S())) && ListHead(f)
    {
      assert S().ChainAt(max, IndexOf(order, f));
      Log2Mono(segs[f].count, max);
      ListFits(max, managed, S(), f);
      LinkFln(f);
      ListsOnly(old(S()), S());
    }

    lemma NotAPage(payload: nat)
      requires pgSize > 0 && chunk % pgSize == 0 && payload % pgSize != 0
      ensures forall x :: x in Live(S()) ==> AddrOf(x.0) != payload
    {
      forall x | x in Live(S())
        ensures AddrOf(x.0) != payload
      {
        MultipleMod(chunk, x.0, pgSize);
      }
    }

    lemma NoSuchSegment(f: int, payload: nat)
      requires Valid()
      requires f == -1 ==> forall g :: g in order ==> g < |segs| && AddrOf(segs[g].start) != payload
      requires f != -1 ==> 0 <= f < |segs| && f in order && AddrOf(segs[f].start) == payload && !segs[f].used
      ensures forall x :: x in Live(S()) ==> AddrOf(x.0) != payload
    {
      forall x | x in Live(S())
        ensures AddrOf(x.0) != payload
      {
        var g: nat :| g in order && g < |segs| && segs[g].used && x == (segs[g].start, segs[g].count);
        if f != -1 && AddrOf(x.0) == payload {
          MulCancel(segs[f].start, x.0, pgSize);
          StartUnique(max, managed, S(), f, g);
        }
      }
    }
  }

  lemma CeilBounds(size: nat, p: nat)
    requires p > 0
    ensures var q := (size + p - 1) / p; q >= 0 && q * p >= size && (q > 0 ==> (q - 1) * p < size)
  {
    var q := (size + p - 1) / p;
    assert q * p <= size + p - 1 < q * p + p;
    OneMore(q, p);
  }

  lemma MultipleMod(a: nat, i: nat, p: nat)
    requires p > 0 && a % p == 0
    ensures (a + i * p) % p == 0
  {
    SumOfProducts(a / p, i, p);
    ModUnique(a + i * p, a / p + i, 0, p);
  }

  lemma SumOfProducts(a: int, b: int, p: int)
    ensures (a + b) * p == a * p + b * p
  {
  }

  lemma MulCancel(a: nat, b: nat, p: nat)
    requires p > 0 && a * p == b * p
    ensures a == b
  {
    if a < b {
      MulMono(a + 1, b, p);
      OneMore(a + 1, p);
    } else if b < a {
      MulMono(b + 1, a, p);
      OneMore(b + 1, p);
    }
  }
}
