// Colours and black heights, and what every recolouring and rotation step of
// _fix_rr and _fix_bb_new does to them.
module RbBalance {
  import opened RbShape

  type Heights = map<RbNode, int>

  ghost function H(bh: Heights, n: RbNode?): int {
    if n != null && n in bh then bh[n] else 0
  }

  ghost predicate Black(L: Links, n: RbNode?) {
    n == null || (n in L && L[n].black)
  }

  // The doomed node counts for nothing although it is still linked; the cursor
  // stands for one black more than its colour says.
  ghost function Weight(L: Links, doomed: RbNode?, extra: RbNode?, n: RbNode): int
    requires n in L
  {
    (if n != doomed && L[n].black then 1 else 0) + (if n == extra then 1 else 0)
  }

  ghost predicate EvenAt(L: Links, bh: Heights, doomed: RbNode?, extra: RbNode?, n: RbNode) {
    && n in L && n in bh
    && H(bh, L[n].l) == H(bh, L[n].r) >= 0
    && bh[n] == H(bh, L[n].l) + Weight(L, doomed, extra, n)
  }

  ghost predicate CalmAt(L: Links, n: RbNode) {
    n in L && (!L[n].black ==> Black(L, L[n].l) && Black(L, L[n].r))
  }

  ghost predicate GoodAt(L: Links, bh: Heights, doomed: RbNode?, extra: RbNode?, n: RbNode) {
    EvenAt(L, bh, doomed, extra, n) && CalmAt(L, n)
  }

  // Black heights agree, and no red node has a red child, except at loose.
  ghost predicate Good(L: Links, bh: Heights, doomed: RbNode?, extra: RbNode?, loose: RbNode?) {
    && L.Keys == bh.Keys
    && (forall n {:trigger GoodAt(L, bh, doomed, extra, n)} ::
          n in L && n != loose ==> GoodAt(L, bh, doomed, extra, n))
    && (loose != null ==> EvenAt(L, bh, doomed, extra, loose))
  }

  lemma Tighten(L: Links, bh: Heights, d: RbNode?, c: RbNode?, loose: RbNode)
    requires Good(L, bh, d, c, loose) && CalmAt(L, loose)
    ensures Good(L, bh, d, c, null)
  {
    forall n | n in L
      ensures GoodAt(L, bh, d, c, n)
    {
      if n == loose {
        assert EvenAt(L, bh, d, c, n) && CalmAt(L, n);
      }
    }
  }

  lemma MirrorKin(L: Links)
    requires Kin(L)
    ensures Kin(Mirrored(L))
  {
    forall n | n in L
      ensures KinAt(Mirrored(L), n)
    {
      assert KinAt(L, n);
    }
  }

  lemma MirrorGood(L: Links, bh: Heights, d: RbNode?, c: RbNode?, loose: RbNode?)
    requires Good(L, bh, d, c, loose)
    ensures Good(Mirrored(L), bh, d, c, loose)
  {
    forall n | n in L && n != loose
      ensures GoodAt(Mirrored(L), bh, d, c, n)
    {
      assert GoodAt(L, bh, d, c, n);
    }
  }

  // --- Rewriting a region --------------------------------------------------

  // Outside the rewritten region T nothing moved, except that the region's top
  // may have a new node in its place.
  ghost predicate Outside(L: Links, R: Links, T: set<RbNode>, top: RbNode, top': RbNode, m: RbNode) {
    && m in L && m in R
    && (L[m].l in T ==> L[m].l == top) && (L[m].r in T ==> L[m].r == top)
    && R[m].l == (if L[m].l == top then top' else L[m].l)
    && R[m].r == (if L[m].r == top then top' else L[m].r)
    && R[m].black == L[m].black
  }

  lemma Patch(L: Links, bh: Heights, d: RbNode?, c: RbNode?, loose: RbNode?,
              R: Links, h: Heights, c': RbNode?, T: set<RbNode>, top: RbNode, top': RbNode, m: RbNode)
    requires Good(L, bh, d, c, loose) && m in L && m !in T && (loose == null || loose in T)
    requires (m == c) == (m == c')
    requires Outside(L, R, T, top, top', m)
    requires top in T && top' in T && top in L && top' in R && top in bh && top' in h && h[top'] == bh[top]
    requires L[top].black ==> R[top'].black
    requires forall x :: x in L && x !in T ==> x in R && R[x].black == L[x].black
    requires forall x :: x !in T ==> H(h, x) == H(bh, x)
    requires h.Keys == bh.Keys
    ensures GoodAt(R, h, d, c', m)
  {
    assert GoodAt(L, bh, d, c, m);
  }

  // --- A red right child takes its black parent's place --------------------
  // The last step of _fix_rr, and the red-sibling and near-nephew steps of
  // _fix_bb_new.

  ghost function RedUpLinks(L: Links, n: RbNode, rc: RbNode): Links
    requires n in L && rc in L
  {
    Rotated(Painted(Painted(L, rc, true), n, false), n, rc)
  }

  ghost function RedUpHeights(bh: Heights, n: RbNode, rc: RbNode): Heights
    requires n in bh
  {
    bh[rc := bh[n]][n := bh[n] - 1]
  }

  ghost predicate RedUpSite(L: Links, bh: Heights, d: RbNode?, c: RbNode?, n: RbNode, rc: RbNode) {
    && n in L && rc in L && KinAt(L, n) && KinAt(L, rc)
    && L[n].r == rc && L[n].p !in {n, rc} && n != rc
    && L[n].black && !L[rc].black && Black(L, L[n].l) && Black(L, L[rc].l)
    && n != d && rc != d && n != c && rc != c
    && EvenAt(L, bh, d, c, rc)
  }

  lemma RedUpInside(L: Links, bh: Heights, d: RbNode?, c: RbNode?, loose: RbNode?, n: RbNode, rc: RbNode)
    requires RedUpSite(L, bh, d, c, n, rc) && Good(L, bh, d, c, loose) && (loose == null || loose == rc)
    ensures GoodAt(RedUpLinks(L, n, rc), RedUpHeights(bh, n, rc), d, c, n)
    ensures GoodAt(RedUpLinks(L, n, rc), RedUpHeights(bh, n, rc), d, c, rc)
  {
    var R := RedUpLinks(L, n, rc);
    assert GoodAt(L, bh, d, c, n);
    assert R[n] == L[n].(r := L[rc].l, p := rc, black := false);
    assert R[rc] == L[rc].(l := n, p := L[n].p, black := true);
  }

  lemma RedUp(L: Links, bh: Heights, d: RbNode?, c: RbNode?, loose: RbNode?, n: RbNode, rc: RbNode)
    requires Kin(L) && RedUpSite(L, bh, d, c, n, rc)
    requires Good(L, bh, d, c, loose) && (loose == null || loose == rc)
    ensures Good(RedUpLinks(L, n, rc), RedUpHeights(bh, n, rc), d, c, null)
  {
    var R, h := RedUpLinks(L, n, rc), RedUpHeights(bh, n, rc);
    RedUpInside(L, bh, d, c, loose, n, rc);
    forall m | m in R
      ensures GoodAt(R, h, d, c, m)
    {
      if m !in {n, rc} {
        assert KinAt(L, m);
        Patch(L, bh, d, c, loose, R, h, c, {n, rc}, n, rc, m);
      }
    }
  }

  ghost function RedUpRightLinks(L: Links, n: RbNode, lc: RbNode): Links
    requires n in L && lc in L
  {
    RotatedRight(Painted(Painted(L, lc, true), n, false), n, lc)
  }

  lemma RedUpRight(L: Links, bh: Heights, d: RbNode?, c: RbNode?, loose: RbNode?, n: RbNode, lc: RbNode)
    requires Kin(L) && RedUpSite(Mirrored(L), bh, d, c, n, lc)
    requires Good(L, bh, d, c, loose) && (loose == null || loose == lc)
    ensures n in L && lc in L && n in bh
    ensures Good(RedUpRightLinks(L, n, lc), RedUpHeights(bh, n, lc), d, c, null)
  {
    MirrorKin(L);
    MirrorGood(L, bh, d, c, loose);
    RedUp(Mirrored(L), bh, d, c, loose, n, lc);
    MirrorPainted(L, lc, true);
    MirrorPainted(Painted(L, lc, true), n, false);
    MirrorRotated(Painted(Painted(L, lc, true), n, false), n, lc);
    MirrorGood(RedUpLinks(Mirrored(L), n, lc), RedUpHeights(bh, n, lc), d, c, null);
  }

  // --- Insertion ----------------------------------------------------------

  // The zigzag step: two red nodes trade places, the lower one is loose next.
  lemma ZigZag(L: Links, bh: Heights, n: RbNode, rc: RbNode)
    requires Kin(L) && Good(L, bh, null, null, n)
    requires n in L && rc in L && L[n].r == rc && L[n].p !in {n, rc} && n != rc
    requires !L[n].black && !L[rc].black && Black(L, L[n].l)
    ensures Good(Rotated(L, n, rc), bh, null, null, rc)
    ensures Black(Rotated(L, n, rc), L[rc].r)
  {
    var R := Rotated(L, n, rc);
    assert KinAt(L, n) && KinAt(L, rc);
    assert GoodAt(L, bh, null, null, rc) && EvenAt(L, bh, null, null, n);
    assert R[n] == L[n].(r := L[rc].l, p := rc);
    assert R[rc] == L[rc].(l := n, p := L[n].p);
    forall m | m in R && m != rc
      ensures GoodAt(R, bh, null, null, m)
    {
      if m != n {
        assert KinAt(L, m);
        Patch(L, bh, null, null, n, R, bh, null, {n, rc}, n, rc, m);
      }
    }
  }

  lemma ZigZagRight(L: Links, bh: Heights, n: RbNode, lc: RbNode)
    requires Kin(L) && Good(L, bh, null, null, n)
    requires n in L && lc in L && L[n].l == lc && L[n].p !in {n, lc} && n != lc
    requires !L[n].black && !L[lc].black && Black(L, L[n].r)
    ensures Good(RotatedRight(L, n, lc), bh, null, null, lc)
    ensures Black(RotatedRight(L, n, lc), L[lc].l)
  {
    MirrorKin(L);
    MirrorGood(L, bh, null, null, n);
    ZigZag(Mirrored(L), bh, n, lc);
    MirrorRotated(L, n, lc);
    MirrorGood(Rotated(Mirrored(L), n, lc), bh, null, null, lc);
  }

  ghost function PushUpLinks(L: Links, g: RbNode, p: RbNode, u: RbNode): Links
    requires g in L && p in L && u in L
  {
    Painted(Painted(Painted(L, p, true), u, true), g, false)
  }

  ghost function PushUpHeights(bh: Heights, p: RbNode, u: RbNode): Heights
    requires p in bh && u in bh
  {
    bh[p := bh[p] + 1][u := bh[u] + 1]
  }

  // Red parent and red uncle: the double red moves up to the grandparent.
  lemma PushUp(L: Links, bh: Heights, g: RbNode, p: RbNode, u: RbNode)
    requires Kin(L) && Good(L, bh, null, null, p) && g in L && p in L && u in L
    requires (L[g].l == p && L[g].r == u) || (L[g].l == u && L[g].r == p)
    requires !L[p].black && !L[u].black && p != u && L[g].p !in {p, u, g} && g != p && g != u
    requires L[g].black
    ensures Good(PushUpLinks(L, g, p, u), PushUpHeights(bh, p, u), null, null, L[g].p)
  {
    var R, h := PushUpLinks(L, g, p, u), PushUpHeights(bh, p, u);
    var T := {g, p, u};
    assert KinAt(L, g) && KinAt(L, p) && KinAt(L, u);
    assert GoodAt(L, bh, null, null, g) && EvenAt(L, bh, null, null, p) && GoodAt(L, bh, null, null, u);
    forall m | m in R
      ensures EvenAt(R, h, null, null, m)
      ensures m != L[g].p ==> CalmAt(R, m)
    {
      if m !in T {
        assert KinAt(L, m);
        assert GoodAt(L, bh, null, null, m);
      }
    }
    forall m | m in R && m != L[g].p
      ensures GoodAt(R, h, null, null, m)
    {
      assert EvenAt(R, h, null, null, m) && CalmAt(R, m);
    }
  }

  // --- Deletion -------------------------------------------------------------

  lemma BothBlackInside(L: Links, bh: Heights, d: RbNode?, c: RbNode, p: RbNode, w: RbNode)
    requires Kin(L) && Good(L, bh, d, c, null) && c in L && p in L && w in L
    requires (L[p].l == c && L[p].r == w) || (L[p].l == w && L[p].r == c)
    requires c != w && p != c && p != w && w != d && L[w].black
    requires Black(L, L[w].l) && Black(L, L[w].r)
    ensures var R, h := Painted(L, w, false), bh[w := bh[w] - 1][c := bh[c] - 1];
      EvenAt(R, h, d, p, p) && GoodAt(R, h, d, p, w) && GoodAt(R, h, d, p, c)
  {
    assert KinAt(L, p) && KinAt(L, w) && KinAt(L, c);
    assert GoodAt(L, bh, d, c, p) && GoodAt(L, bh, d, c, w) && GoodAt(L, bh, d, c, c);
  }

  // Sibling and nephews black: the sibling turns red, the cursor moves up.
  lemma BothBlack(L: Links, bh: Heights, d: RbNode?, c: RbNode, p: RbNode, w: RbNode)
    requires Kin(L) && Good(L, bh, d, c, null) && c in L && p in L && w in L
    requires (L[p].l == c && L[p].r == w) || (L[p].l == w && L[p].r == c)
    requires c != w && p != c && p != w && w != d && L[w].black
    requires Black(L, L[w].l) && Black(L, L[w].r)
    ensures Good(Painted(L, w, false), bh[w := bh[w] - 1][c := bh[c] - 1], d, p, p)
  {
    var R, h := Painted(L, w, false), bh[w := bh[w] - 1][c := bh[c] - 1];
    BothBlackInside(L, bh, d, c, p, w);
    assert KinAt(L, p);
    forall m | m in R && m != p
      ensures GoodAt(R, h, d, p, m)
    {
      if m != w && m != c {
        assert KinAt(L, m) && KinAt(L, c) && KinAt(L, w);
        assert GoodAt(L, bh, d, c, m);
      }
    }
  }

  // Sibling black with a red far child: one rotation absorbs the extra black.
  ghost function FarRedLinks(L: Links, p: RbNode, w: RbNode, far: RbNode): Links
    requires p in L && w in L && far in L
  {
    Rotated(Painted(Painted(Painted(L, w, L[p].black), p, true), far, true), p, w)
  }

  ghost function FarRedHeights(bh: Heights, c: RbNode, p: RbNode, w: RbNode, far: RbNode): Heights
    requires c in bh && p in bh && far in bh
  {
    bh[c := bh[c] - 1][p := bh[c]][far := bh[far] + 1][w := bh[p]]
  }

  ghost predicate FarRedSite(L: Links, d: RbNode?, c: RbNode, p: RbNode, w: RbNode, far: RbNode) {
    && c in L && p in L && w in L && far in L
    && KinAt(L, c) && KinAt(L, p) && KinAt(L, w) && KinAt(L, far)
    && L[p].l == c && L[p].r == w && L[w].r == far && L[p].p !in {c, p, w, far} && c != far
    && w != d && p != d && far != d
    && L[c].black && L[w].black && !L[far].black
  }

  lemma FarRedInside(L: Links, bh: Heights, d: RbNode?, c: RbNode, p: RbNode, w: RbNode, far: RbNode, m: RbNode)
    requires FarRedSite(L, d, c, p, w, far) && Good(L, bh, d, c, null)
    requires m in {c, p, w, far}
    ensures GoodAt(FarRedLinks(L, p, w, far), FarRedHeights(bh, c, p, w, far), d, null, m)
  {
    var R, h := FarRedLinks(L, p, w, far), FarRedHeights(bh, c, p, w, far);
    assert GoodAt(L, bh, d, c, c) && GoodAt(L, bh, d, c, p);
    assert GoodAt(L, bh, d, c, w) && GoodAt(L, bh, d, c, far);
    if m == p {
      assert R[p] == L[p].(r := L[w].l, p := w, black := true);
    } else if m == w {
      assert R[w] == Cell(p, far, L[p].p, L[p].black);
    } else if m == far {
      assert R[far].l == L[far].l && R[far].r == L[far].r && R[far].black;
    } else {
      assert R[c].l == L[c].l && R[c].r == L[c].r && R[c].black;
    }
  }

  lemma FarRed(L: Links, bh: Heights, d: RbNode?, c: RbNode, p: RbNode, w: RbNode, far: RbNode)
    requires Kin(L) && FarRedSite(L, d, c, p, w, far) && Good(L, bh, d, c, null)
    ensures Good(FarRedLinks(L, p, w, far), FarRedHeights(bh, c, p, w, far), d, null, null)
  {
    var R, h := FarRedLinks(L, p, w, far), FarRedHeights(bh, c, p, w, far);
    var T := {c, p, w, far};
    forall m | m in R
      ensures GoodAt(R, h, d, null, m)
    {
      if m in T {
        FarRedInside(L, bh, d, c, p, w, far, m);
      } else {
        assert KinAt(L, m);
        Patch(L, bh, d, c, null, R, h, null, T, p, w, m);
      }
    }
  }

  ghost function FarRedRightLinks(L: Links, p: RbNode, w: RbNode, far: RbNode): Links
    requires p in L && w in L && far in L
  {
    RotatedRight(Painted(Painted(Painted(L, w, L[p].black), p, true), far, true), p, w)
  }

  lemma FarRedRight(L: Links, bh: Heights, d: RbNode?, c: RbNode, p: RbNode, w: RbNode, far: RbNode)
    requires Kin(L) && FarRedSite(Mirrored(L), d, c, p, w, far) && Good(L, bh, d, c, null)
    ensures c in L && p in L && w in L && far in L
    ensures Good(FarRedRightLinks(L, p, w, far), FarRedHeights(bh, c, p, w, far), d, null, null)
  {
    MirrorKin(L);
    MirrorGood(L, bh, d, c, null);
    FarRed(Mirrored(L), bh, d, c, p, w, far);
    var P1 := Painted(L, w, L[p].black);
    var P2 := Painted(P1, p, true);
    MirrorPainted(L, w, L[p].black);
    MirrorPainted(P1, p, true);
    MirrorPainted(P2, far, true);
    MirrorRotated(Painted(P2, far, true), p, w);
    MirrorGood(FarRedLinks(Mirrored(L), p, w, far), FarRedHeights(bh, c, p, w, far), d, null, null);
  }

  // The final set_black absorbs the extra black of a red cursor, or drops it
  // at the root.
  ghost function SettledHeights(L: Links, bh: Heights, c: RbNode): Heights
    requires c in L && c in bh
  {
    if L[c].black then bh[c := bh[c] - 1] else bh
  }

  lemma Settle(L: Links, bh: Heights, d: RbNode?, c: RbNode)
    requires Kin(L) && Good(L, bh, d, c, c) && c in L
    requires !L[c].black || L[c].p == null
    requires c != d || L[c].black
    ensures Good(Painted(L, c, true), SettledHeights(L, bh, c), d, null, null)
  {
    var R, h := Painted(L, c, true), SettledHeights(L, bh, c);
    forall m | m in R
      ensures GoodAt(R, h, d, null, m)
    {
      assert KinAt(L, m);
      if m != c {
        assert GoodAt(L, bh, d, c, m);
      }
    }
  }

  // Painting the root black costs nothing but one black on every path.
  lemma BlackenRoot(L: Links, bh: Heights, loose: RbNode?, root: RbNode)
    requires Kin(L) && Good(L, bh, null, null, loose) && root in L && L[root].p == null
    requires loose == null || loose == root
    ensures Good(Painted(L, root, true), if L[root].black then bh else bh[root := bh[root] + 1], null, null, null)
  {
    var R, h := Painted(L, root, true), if L[root].black then bh else bh[root := bh[root] + 1];
    forall m | m in R
      ensures GoodAt(R, h, null, null, m)
    {
      assert KinAt(L, m);
      if m != root {
        assert GoodAt(L, bh, null, null, m);
      } else {
        assert loose == null ==> GoodAt(L, bh, null, null, root);
      }
    }
  }

  // A black subtree has at least one black on every path.
  lemma BlackIsTall(L: Links, bh: Heights, d: RbNode?, n: RbNode?)
    requires Good(L, bh, d, null, null) && (n != null ==> n in L && n != d)
    ensures H(bh, n) >= 0 && (n != null && L[n].black ==> H(bh, n) >= 1)
  {
    if n != null {
      assert GoodAt(L, bh, d, null, n);
    }
  }

  // A node with a single child: the child is a red leaf and the node is black.
  lemma LoneChildIsRedLeaf(L: Links, bh: Heights, d: RbNode?, x: RbNode, sc: RbNode)
    requires Good(L, bh, d, null, null) && x in L && sc in L && sc != d
    requires (L[x].l == sc && L[x].r == null) || (L[x].l == null && L[x].r == sc)
    requires L[sc].l != null ==> L[sc].l in L && L[sc].l != d
    requires L[sc].r != null ==> L[sc].r in L && L[sc].r != d
    ensures !L[sc].black && L[sc].l == null && L[sc].r == null && L[x].black
  {
    assert GoodAt(L, bh, d, null, x) && GoodAt(L, bh, d, null, sc);
    BlackIsTall(L, bh, d, L[sc].l);
    BlackIsTall(L, bh, d, L[sc].r);
  }

  // Unlinking the weightless doomed node.
  lemma Unlink(L: Links, bh: Heights, x: RbNode, sc: RbNode?)
    requires Kin(L) && Good(L, bh, x, null, null) && x in L
    requires sc == null ==> L[x].l == null && L[x].r == null
    requires sc != null ==> sc in L && sc != x && ((L[x].l == sc && L[x].r == null) || (L[x].l == null && L[x].r == sc))
    requires sc != null && L[x].p != null ==> L[x].p in L && (L[L[x].p].black || L[sc].black)
    ensures Good(Removed(L, x, sc), bh - {x}, null, null, null)
  {
    var R, h := Removed(L, x, sc), bh - {x};
    assert KinAt(L, x) && GoodAt(L, bh, x, null, x);
    forall m | m in R
      ensures GoodAt(R, h, null, null, m)
    {
      assert KinAt(L, m);
      assert GoodAt(L, bh, x, null, m);
    }
  }

  // A red leaf under hot leaves every height alone; only hot may be loose.
  lemma Attach(L: Links, bh: Heights, n: RbNode, hot: RbNode, left: bool)
    requires Kin(L) && Good(L, bh, null, null, null) && n !in L && hot in L
    requires if left then L[hot].l == null else L[hot].r == null
    ensures Good(Attached(L, n, hot, left), bh[n := 0], null, null, hot)
    ensures !L[hot].black ==> L[hot].l == null && L[hot].r == null
  {
    var R, h := Attached(L, n, hot, left), bh[n := 0];
    assert KinAt(L, hot) && GoodAt(L, bh, null, null, hot);
    BlackIsTall(L, bh, null, L[hot].l);
    BlackIsTall(L, bh, null, L[hot].r);
    forall m | m in R && m != hot
      ensures GoodAt(R, h, null, null, m)
    {
      if m != n {
        assert KinAt(L, m);
        assert GoodAt(L, bh, null, null, m);
      }
    }
  }

  // Renaming two nodes renames the heights.
  ghost function RenamedHeights(bh: Heights, a: RbNode, b: RbNode): Heights
    requires a in bh && b in bh
  {
    map m | m in bh :: bh[Swap(a, b, m)]
  }

  lemma RenameGood(L: Links, bh: Heights, d: RbNode?, c: RbNode?, a: RbNode, b: RbNode)
    requires Kin(L) && Good(L, bh, d, c, null) && a in L && b in L
    ensures Good(Renamed(L, a, b), RenamedHeights(bh, a, b), SwapN(a, b, d), SwapN(a, b, c), null)
  {
    var R, h := Renamed(L, a, b), RenamedHeights(bh, a, b);
    forall m | m in R
      ensures GoodAt(R, h, SwapN(a, b, d), SwapN(a, b, c), m)
    {
      var n := Swap(a, b, m);
      assert KinAt(L, n);
      assert GoodAt(L, bh, d, c, n);
    }
  }

  // Dooming a black node and standing the cursor on it changes no height.
  lemma Doom(L: Links, bh: Heights, x: RbNode)
    requires Good(L, bh, null, null, null) && x in L
    ensures L[x].black ==> Good(L, bh, x, x, null)
    ensures !L[x].black ==> Good(L, bh, x, null, null)
  {
    forall m | m in L
      ensures GoodAt(L, bh, x, if L[x].black then x else null, m)
    {
      assert GoodAt(L, bh, null, null, m);
    }
  }
}
