// The steps of _fix_rr and _fix_bb_new on the tree as a value, and the proof
// that each keeps the tree linked and balanced.
module RbSteps {
  import opened RbShape
  import opened RbBalance
  import opened Arith

  ghost predicate CornerLeft(v: View, node: RbNode, p: RbNode, g: RbNode) {
    && node in v.links && p in v.links && node in v.pos && p in v.pos
    && (v.links[p].r == node ==>
          && Rotatable(v.links, p) && (v.links[p].p == null <==> p == v.root)
          && LiftableRight(v.RotateLeft(p), g, node))
    && (v.links[p].r != node ==> LiftableRight(v, g, p))
  }

  ghost function StraightLeft(v: View, node: RbNode, p: RbNode, g: RbNode): View
    requires CornerLeft(v, node, p, g)
  {
    if v.links[p].r == node then LiftedRight(v.RotateLeft(p), g, node) else LiftedRight(v, g, p)
  }

  ghost predicate CornerRight(v: View, node: RbNode, p: RbNode, g: RbNode) {
    && node in v.links && p in v.links && node in v.pos && p in v.pos
    && (v.links[p].l == node ==>
          && RotatableRight(v.links, p) && (v.links[p].p == null <==> p == v.root)
          && Liftable(v.RotateRight(p), g, node))
    && (v.links[p].l != node ==> Liftable(v, g, p))
  }

  ghost function StraightRight(v: View, node: RbNode, p: RbNode, g: RbNode): View
    requires CornerRight(v, node, p, g)
  {
    if v.links[p].l == node then LiftedLeft(v.RotateRight(p), g, node) else LiftedLeft(v, g, p)
  }

  ghost predicate Liftable(v: View, n: RbNode, rc: RbNode) {
    && n in v.links && rc in v.links && n in v.pos && rc in v.pos && n != rc
    && v.links[n].r == rc
    && Rotatable(Painted(Painted(v.links, rc, true), n, false), n)
    && (v.links[n].p == null <==> n == v.root)
  }

  ghost function LiftedLeft(v: View, n: RbNode, rc: RbNode): View
    requires n in v.links && rc in v.links && n in v.pos && rc in v.pos
  {
    View(RedUpLinks(v.links, n, rc), if v.root == n then rc else v.root, v.order, TiltedLeft(v.pos, n, rc))
  }

  lemma LiftLeftKeeps(v: View, bh: Heights, d: RbNode?, c: RbNode?, loose: RbNode?, n: RbNode, rc: RbNode)
    requires v.Linked() && RedUpSite(v.links, bh, d, c, n, rc)
    requires Good(v.links, bh, d, c, loose) && (loose == null || loose == rc)
    ensures n in bh && Liftable(v, n, rc)
    ensures LiftedLeft(v, n, rc).Linked()
    ensures Good(LiftedLeft(v, n, rc).links, RedUpHeights(bh, n, rc), d, c, null)
  {
    LinkedIsKin(v);
    RedUp(v.links, bh, d, c, loose, n, rc);
    var v1 := v.(links := Painted(v.links, rc, true));
    PaintedLinked(v, rc, true);
    var v2 := v1.(links := Painted(v1.links, n, false));
    PaintedLinked(v1, n, false);
    RotatableFacts(v2, n, rc);
    RotateLeftLinked(v2, n);
    assert LiftedLeft(v, n, rc) == v2.RotateLeft(n);
  }

  ghost predicate LiftableRight(v: View, n: RbNode, lc: RbNode) {
    && n in v.links && lc in v.links && n in v.pos && lc in v.pos && n != lc
    && v.links[n].l == lc
    && RotatableRight(Painted(Painted(v.links, lc, true), n, false), n)
    && (v.links[n].p == null <==> n == v.root)
  }

  ghost function LiftedRight(v: View, n: RbNode, lc: RbNode): View
    requires n in v.links && lc in v.links && n in v.pos && lc in v.pos
  {
    View(RedUpRightLinks(v.links, n, lc), if v.root == n then lc else v.root, v.order, TiltedRight(v.pos, n, lc))
  }

  lemma LiftRightKeeps(v: View, bh: Heights, d: RbNode?, c: RbNode?, loose: RbNode?, n: RbNode, lc: RbNode)
    requires v.Linked() && RedUpSite(Mirrored(v.links), bh, d, c, n, lc)
    requires Good(v.links, bh, d, c, loose) && (loose == null || loose == lc)
    ensures n in bh && LiftableRight(v, n, lc)
    ensures LiftedRight(v, n, lc).Linked()
    ensures Good(LiftedRight(v, n, lc).links, RedUpHeights(bh, n, lc), d, c, null)
  {
    LinkedIsKin(v);
    RedUpRight(v.links, bh, d, c, loose, n, lc);
    var v1 := v.(links := Painted(v.links, lc, true));
    PaintedLinked(v, lc, true);
    var v2 := v1.(links := Painted(v1.links, n, false));
    PaintedLinked(v1, n, false);
    RotatableRightFacts(v2, n, lc);
    RotateRightLinked(v2, n);
    assert LiftedRight(v, n, lc) == v2.RotateRight(n);
  }

  ghost predicate Rotatable(L: Links, node: RbNode) {
    node in L && Kin(L) && KinAt(L, node) && (L[node].r != null ==> L[node].r != node && L[node].r != L[node].p)
  }

  ghost predicate RotatableRight(L: Links, node: RbNode) {
    node in L && Kin(L) && KinAt(L, node) && (L[node].l != null ==> L[node].l != node && L[node].l != L[node].p)
  }

  lemma RotatableRightFacts(v: View, node: RbNode, lc: RbNode)
    requires v.Linked() && node in v.links && v.links[node].l == lc
    ensures Kin(v.links) && KinAt(v.links, node) && KinAt(v.links, lc)
    ensures lc != node && lc != v.links[node].p && v.links[lc].r != node && v.links[lc].r != lc
    ensures node == v.root <==> v.links[node].p == null
  {
    LinkedIsKin(v);
    assert v.LinkedAt(node) && v.LinkedAt(lc) && KinAt(v.links, node) && KinAt(v.links, lc);
    Nested(v, lc);
    if v.links[node].p != null {
      Nested(v, node);
    }
  }

  lemma RotatableFacts(v: View, node: RbNode, rc: RbNode)
    requires v.Linked() && node in v.links && v.links[node].r == rc
    ensures Kin(v.links) && KinAt(v.links, node) && KinAt(v.links, rc)
    ensures rc != node && rc != v.links[node].p && v.links[rc].l != node && v.links[rc].l != rc
    ensures node == v.root <==> v.links[node].p == null
  {
    LinkedIsKin(v);
    assert v.LinkedAt(node) && v.LinkedAt(rc) && KinAt(v.links, node) && KinAt(v.links, rc);
    Nested(v, rc);
    if v.links[node].p != null {
      Nested(v, node);
    }
  }

  ghost function ReplaceChild(L: Links, q: RbNode?, from: RbNode, to: RbNode?): (R: Links)
  {
    if q == null || q !in L then L
    else if L[q].l == from then L[q := L[q].(l := to)] else L[q := L[q].(r := to)]
  }

  ghost function Adopt(L: Links, c: RbNode?, parent: RbNode?): Links
  {
    if c == null || c !in L then L else L[c := L[c].(p := parent)]
  }

  lemma RotationWrites(L: Links, node: RbNode, rc: RbNode, L1: Links, R: Links)
    requires Kin(L) && KinAt(L, node) && KinAt(L, rc) && L[node].r == rc && L[node].p != rc && node != rc
    requires L1 == ReplaceChild(L[rc := L[rc].(p := L[node].p)], L[node].p, node, rc)
    requires R == Adopt(L1, L1[rc].l, node)[node := L1[node].(p := rc, r := L1[rc].l)][rc := L1[rc].(l := node)]
    ensures R == Rotated(L, node, rc)
  {
    forall m | m in L
      ensures R[m] == Rotated(L, node, rc)[m]
    {
      assert KinAt(L, m);
    }
  }

  lemma RightRotationWrites(L: Links, node: RbNode, lc: RbNode, L1: Links, R: Links)
    requires Kin(L) && KinAt(L, node) && KinAt(L, lc) && L[node].l == lc && L[node].p != lc && node != lc
    requires L1 == ReplaceChild(L[lc := L[lc].(p := L[node].p)], L[node].p, node, lc)
    requires R == Adopt(L1, L1[lc].r, node)[node := L1[node].(p := lc, l := L1[lc].r)][lc := L1[lc].(r := node)]
    ensures R == RotatedRight(L, node, lc)
  {
    forall m | m in L
      ensures R[m] == RotatedRight(L, node, lc)[m]
    {
      assert KinAt(L, m);
    }
  }

  ghost function Substitute(L: Links, parent: RbNode?, from: RbNode, to: RbNode): Links
  {
    if parent == null || parent !in L then L
    else if L[parent].l == from then L[parent := L[parent].(l := to)]
    else if L[parent].r == from then L[parent := L[parent].(r := to)]
    else L
  }

  ghost function ParentsRenamed(L: Links, p: RbNode, q: RbNode): Links {
    map m | m in L :: L[m].(p := SwapN(p, q, L[m].p))
  }

  ghost function CellsRenamed(L: Links, p: RbNode, q: RbNode): Links {
    map m | m in L :: Cell(SwapN(p, q, L[m].l), SwapN(p, q, L[m].r), SwapN(p, q, L[m].p), L[m].black)
  }

  lemma AdoptPair(L: Links, l: RbNode?, r: RbNode?, q: RbNode)
    ensures var R := Adopt(Adopt(L, l, q), r, q);
      && R.Keys == L.Keys
      && forall m :: m in L ==> R[m] == L[m].(p := if m == l || m == r then q else L[m].p)
  {
  }

  lemma SwapParentWrites(L: Links, p: RbNode, q: RbNode, L1: Links)
    requires Kin(L) && p in L && q in L && p != q
    requires L1 == Adopt(Adopt(Adopt(Adopt(L, L[p].l, q), L[p].r, q), L[q].l, p), L[q].r, p)
    ensures L1 == ParentsRenamed(L, p, q)
  {
    var M := Adopt(Adopt(L, L[p].l, q), L[p].r, q);
    AdoptPair(L, L[p].l, L[p].r, q);
    AdoptPair(M, L[q].l, L[q].r, p);
    assert KinAt(L, p) && KinAt(L, q);
    forall m | m in L
      ensures L1[m] == ParentsRenamed(L, p, q)[m]
    {
      assert KinAt(L, m);
    }
  }

  // Half way: the parent of p already leads to q.
  ghost function HalfRenamed(L: Links, p: RbNode, q: RbNode): Links {
    map m | m in L ::
      Cell(if L[m].l == p then q else L[m].l, if L[m].r == p then q else L[m].r, SwapN(p, q, L[m].p), L[m].black)
  }

  lemma SwapFirstChild(L: Links, p: RbNode, q: RbNode, L2: Links)
    requires Kin(L) && p in L && p != q && L2 == Substitute(ParentsRenamed(L, p, q), L[p].p, p, q)
    ensures L2 == HalfRenamed(L, p, q)
  {
    assert KinAt(L, p);
    forall m | m in L
      ensures m in L2 && L2[m] == HalfRenamed(L, p, q)[m]
    {
      assert KinAt(L, m);
    }
  }

  ghost predicate LeftSibling(L: Links, p: RbNode, q: RbNode)
    requires p in L && q in L
  {
    L[p].p != null && L[p].p == L[q].p && L[p].p in L && L[L[p].p].l == p
  }

  // With a left sibling of q for p the second write undoes the first.
  ghost function ChildrenKept(L: Links, p: RbNode, q: RbNode, R: Links): Links
    requires p in L && q in L && R.Keys == L.Keys
  {
    if LeftSibling(L, p, q) then var g := L[p].p; R[g := R[g].(l := L[g].l, r := L[g].r)] else R
  }

  lemma SwapSecondChild(L: Links, p: RbNode, q: RbNode, L3: Links)
    requires Kin(L) && p in L && q in L && p != q
    requires L3 == Substitute(HalfRenamed(L, p, q), L[q].p, q, p)
    ensures L3 == ChildrenKept(L, p, q, CellsRenamed(L, p, q))
  {
    assert KinAt(L, p) && KinAt(L, q);
    forall m | m in L
      ensures m in L3 && L3[m] == ChildrenKept(L, p, q, CellsRenamed(L, p, q))[m]
    {
      SecondChildAt(L, p, q, m);
    }
  }

  lemma SecondChildAt(L: Links, p: RbNode, q: RbNode, m: RbNode)
    requires Kin(L) && p in L && q in L && p != q && m in L
    ensures var L3 := Substitute(HalfRenamed(L, p, q), L[q].p, q, p);
      m in L3 && L3[m] == ChildrenKept(L, p, q, CellsRenamed(L, p, q))[m]
  {
    assert KinAt(L, p) && KinAt(L, q) && KinAt(L, m);
  }

  // The links after _swap_node.
  ghost function Swapped(L: Links, p: RbNode, q: RbNode): Links
    requires p in L && q in L
  {
    ChildrenKept(L, p, q, Renamed(L, p, q))
  }

  // The two nodes are exchanged unless p is the left sibling of q; then their
  // parent still has p on the left and q on the right.
  lemma SwapExactly(L: Links, p: RbNode, q: RbNode)
    requires Kin(L) && p in L && q in L && p != q
    ensures Swapped(L, p, q) == Renamed(L, p, q) <==> !LeftSibling(L, p, q)
    ensures LeftSibling(L, p, q) ==>
      var g := L[p].p;
      && Swapped(L, p, q)[g].l == p && Swapped(L, p, q)[g].r == q
      && Renamed(L, p, q)[g].l == q && Renamed(L, p, q)[g].r == p
  {
    assert KinAt(L, p) && KinAt(L, q);
    if LeftSibling(L, p, q) { assert KinAt(L, L[p].p); }
  }

  // A root g with the two children p and q: exchanging them fails.
  lemma SiblingsNotSwapped(g: RbNode, p: RbNode, q: RbNode)
    requires g != p && g != q && p != q
    ensures var L := map[g := Cell(p, q, null, true), p := Cell(null, null, g, false), q := Cell(null, null, g, false)];
      Kin(L) && Swapped(L, p, q) == L != Renamed(L, p, q)
  {
    var L := map[g := Cell(p, q, null, true), p := Cell(null, null, g, false), q := Cell(null, null, g, false)];
    assert KinAt(L, g) && KinAt(L, p) && KinAt(L, q);
    SwapExactly(L, p, q);
  }

  // The writes of _swap_node amount to a renaming, also when one node is the
  // other's child and its parent word points at itself for a while.
  lemma SwapWrites(L: Links, p: RbNode, q: RbNode, R: Links)
    requires Kin(L) && p in L && q in L && p != q
    requires var L3 := ChildrenKept(L, p, q, CellsRenamed(L, p, q)); R == L3[p := L3[q]][q := L3[p]]
    ensures R == Swapped(L, p, q)
  {
    assert KinAt(L, p) && KinAt(L, q);
  }

  // --- _transplant ---------------------------------------------------------------

  // What _link writes.
  ghost function LinkWrites(L: Links, p: RbNode?, lc: RbNode?, rc: RbNode?): Links {
    if p == null || p == lc || p == rc || p !in L then L
    else Adopt(Adopt(L[p := L[p].(l := lc, r := rc)], lc, p), rc, p)
  }

  ghost function Orphaned(L: Links, rm: RbNode, sc: RbNode?): Links
    requires rm in L
  {
    if sc == null then L else L[rm := L[rm].(l := null, r := null)]
  }

  ghost predicate LeafOrNone(L: Links, sc: RbNode?) {
    sc != null ==> sc in L && L[sc].l == null && L[sc].r == null
  }

  ghost function ReplaceWrites(L: Links, rm: RbNode, sc: RbNode?, q: RbNode): Links
    requires rm in L && q in L
  {
    var A := if L[q].l == rm then LinkWrites(L, q, sc, L[q].r) else L;
    if q in A && A[q].r == rm then LinkWrites(A, q, A[q].l, sc) else A
  }

  // The replacement goes where rm was; its own (missing) children are dropped.
  ghost function GraftWrites(L: Links, rm: RbNode, sc: RbNode?, q: RbNode): Links
    requires rm in L && q in L
  {
    var B := ReplaceWrites(L, rm, sc, q);
    LinkWrites(B, sc, if rm in B then B[rm].l else null, null)
  }

  ghost function Grafted(L: Links, rm: RbNode, sc: RbNode?, q: RbNode): Links
    requires rm in L && q in L && LeafOrNone(L, sc)
  {
    var c := L[q];
    var A := Orphaned(L, rm, sc)[q := c.(l := if c.l == rm then sc else c.l, r := if c.r == rm then sc else c.r)];
    if sc == null then A else A[sc := L[sc].(p := q)]
  }

  // _link adopts children that mostly know their parent already.
  lemma LinkIsUpdate(L: Links, p: RbNode, lc: RbNode?, rc: RbNode?, added: RbNode?)
    requires p in L && p != lc && p != rc
    requires lc != null ==> lc in L && (lc == added || L[lc].p == p)
    requires rc != null ==> rc in L && (rc == added || L[rc].p == p)
    requires added == null || added == lc || added == rc
    ensures LinkWrites(L, p, lc, rc) ==
      (if added == null then L[p := L[p].(l := lc, r := rc)]
       else L[p := L[p].(l := lc, r := rc)][added := L[added].(p := p)])
  {
  }

  lemma GraftIsGrafted(L: Links, rm: RbNode, sc: RbNode?, q: RbNode)
    requires Kin(L) && SoleChild(L, rm, sc) && LeafOrNone(L, sc) && L[rm].p == q && q in L && q != sc
    ensures GraftWrites(Orphaned(L, rm, sc), rm, sc, q) == Grafted(L, rm, sc, q)
  {
    assert KinAt(L, rm) && KinAt(L, q);
    if sc != null { assert KinAt(L, sc); }
    var O := Orphaned(L, rm, sc);
    if L[q].l == rm {
      LinkIsUpdate(O, q, sc, O[q].r, sc);
    } else {
      LinkIsUpdate(O, q, O[q].l, sc, sc);
    }
  }

  lemma GraftIsRemoval(L: Links, rm: RbNode, sc: RbNode?, q: RbNode)
    requires Kin(L) && SoleChild(L, rm, sc) && LeafOrNone(L, sc) && L[rm].p == q && q in L && q != sc
    ensures Grafted(L, rm, sc, q) - {rm} == Removed(L, rm, sc)
  {
    assert KinAt(L, rm) && KinAt(L, q);
    var R := Grafted(L, rm, sc, q);
    if sc != null { assert KinAt(L, sc); }
    forall m | m in L && m != rm
      ensures m in R && R[m] == Removed(L, rm, sc)[m]
    {
      assert KinAt(L, m);
    }
  }

  lemma RootIsRemoval(L: Links, rm: RbNode, sc: RbNode?, R: Links)
    requires Kin(L) && SoleChild(L, rm, sc) && LeafOrNone(L, sc) && L[rm].p == null
    requires R == (if sc == null then L else Orphaned(L, rm, sc)[sc := Cell(null, null, null, L[sc].black)])
    ensures R - {rm} == Removed(L, rm, sc)
  {
    assert KinAt(L, rm);
    if sc != null { assert KinAt(L, sc); }
    forall m | m in L && m != rm
      ensures m in R && R[m] == Removed(L, rm, sc)[m]
    {
      assert KinAt(L, m);
    }
  }

  // --- Insertion -------------------------------------------------------------

  ghost function OtherChild(L: Links, p: RbNode, n: RbNode): RbNode?
    requires p in L
  {
    if L[p].l == n then L[p].r else L[p].l
  }

  // node is red, and the only trouble in the tree is that its parent may be
  // red as well.
  ghost predicate DoubleRed(v: View, bh: Heights, node: RbNode) {
    && v.Linked() && node in v.links && v.root != null && v.root in v.links
    && !v.links[node].black && Good(v.links, bh, null, null, v.links[node].p)
    && (v.links[node].p == null || v.links[v.root].black)
    && var p := v.links[node].p;
       (p != null ==> p in v.links && (!v.links[p].black ==> Black(v.links, OtherChild(v.links, p, node))))
  }

  // A red parent has a black parent itself.
  ghost predicate Elders(v: View, node: RbNode, p: RbNode, g: RbNode) {
    && node in v.links && p in v.links && g in v.links && v.links[node].p == p && v.links[p].p == g
    && v.links[g].black && !v.links[p].black && (v.links[g].l == p || v.links[g].r == p)
    && (v.links[p].l == node || v.links[p].r == node)
    && g != p && g != node && p != node && v.links[g].p !in {g, p, node}
    && node in v.pos && p in v.pos && g in v.pos && 0 <= v.pos[g].lo && v.pos[g].hi <= |v.order|
    && v.pos[node].hi - v.pos[node].lo < v.pos[g].hi - v.pos[g].lo
  }

  lemma GrandParent(v: View, bh: Heights, node: RbNode)
    requires DoubleRed(v, bh, node)
    requires v.links[node].p != null && !v.links[v.links[node].p].black
    ensures var p := v.links[node].p; v.links[p].p != null && Elders(v, node, p, v.links[p].p)
  {
    var p := v.links[node].p;
    assert v.LinkedAt(node) && v.LinkedAt(p);
    Nested(v, node);
    Nested(v, p);
    var g := v.links[p].p;
    assert v.LinkedAt(g);
    assert GoodAt(v.links, bh, null, null, g);
    if v.links[g].p != null { Nested(v, g); }
  }

  lemma PushUpLinked(v: View, p: RbNode, g: RbNode, u: RbNode)
    requires v.Linked() && p in v.links && g in v.links && u in v.links
    ensures v.(links := PushUpLinks(v.links, g, p, u)).Linked()
  {
    PaintedLinked(v, p, true);
    PaintedLinked(v.(links := Painted(v.links, p, true)), u, true);
    PaintedLinked(v.(links := Painted(Painted(v.links, p, true), u, true)), g, false);
  }

  lemma PushUpKeeps(v: View, bh: Heights, node: RbNode, p: RbNode, g: RbNode, u: RbNode)
    requires DoubleRed(v, bh, node) && Elders(v, node, p, g)
    requires u == OtherChild(v.links, g, p) && u in v.links && !v.links[u].black
    ensures p in bh && u in bh && g in v.pos
    ensures DoubleRed(v.(links := PushUpLinks(v.links, g, p, u)), PushUpHeights(bh, p, u), g)
  {
    assert v.LinkedAt(g) && v.LinkedAt(p) && v.LinkedAt(u);
    LinkedIsKin(v);
    assert KinAt(v.links, g) && KinAt(v.links, u);
    PushUp(v.links, bh, g, p, u);
    PushUpLinked(v, p, g, u);
    PushUpAbove(v, bh, node, p, g, u);
  }

  // What is above the grandparent stays as it was.
  lemma PushUpAbove(v: View, bh: Heights, node: RbNode, p: RbNode, g: RbNode, u: RbNode)
    requires DoubleRed(v, bh, node) && Elders(v, node, p, g)
    requires u == OtherChild(v.links, g, p) && u in v.links && !v.links[u].black
    ensures var L, q := PushUpLinks(v.links, g, p, u), v.links[g].p;
      && L[g].p == q && (q == null || (v.root in L && L[v.root].black))
      && (q != null ==> q in L && (!L[q].black ==> Black(L, OtherChild(L, q, g))))
  {
    assert v.LinkedAt(g) && v.LinkedAt(p) && v.LinkedAt(u);
    LinkedIsKin(v);
    assert KinAt(v.links, g) && KinAt(v.links, u);
    var q := v.links[g].p;
    if q != null {
      assert v.LinkedAt(q);
      assert GoodAt(v.links, bh, null, null, q);
    }
  }

  // The grandparent is about to be lifted over on the right.
  lemma LiftSiteRight(v: View, bh: Heights, g: RbNode, top: RbNode)
    requires v.Linked() && Good(v.links, bh, null, null, top) && g in v.links && top in v.links
    requires v.links[g].l == top && v.links[g].black && !v.links[top].black
    requires Black(v.links, v.links[g].r) && Black(v.links, v.links[top].r)
    ensures RedUpSite(Mirrored(v.links), bh, null, null, g, top)
  {
    RotatableRightFacts(v, g, top);
    MirrorKin(v.links);
    assert KinAt(Mirrored(v.links), g) && KinAt(Mirrored(v.links), top);
  }

  lemma LiftSite(v: View, bh: Heights, g: RbNode, top: RbNode)
    requires v.Linked() && Good(v.links, bh, null, null, top) && g in v.links && top in v.links
    requires v.links[g].r == top && v.links[g].black && !v.links[top].black
    requires Black(v.links, v.links[g].l) && Black(v.links, v.links[top].l)
    ensures RedUpSite(v.links, bh, null, null, g, top)
  {
    RotatableFacts(v, g, top);
  }

  // A red-black tree: linked, balanced, calm, and black at the root.
  ghost predicate RedBlack(v: View, bh: Heights) {
    && v.Linked() && Good(v.links, bh, null, null, null)
    && (v.root != null ==> v.root in v.links && v.links[v.root].black)
  }

  ghost predicate SettledTree(v: View, bh: Heights, order: seq<RbNode>) {
    RedBlack(v, bh) && v.order == order && v.root != null
  }

  lemma StraightLeftKeeps(v: View, bh: Heights, node: RbNode, p: RbNode, g: RbNode)
    requires DoubleRed(v, bh, node) && Elders(v, node, p, g)
    requires v.links[g].l == p && Black(v.links, v.links[g].r)
    ensures g in bh && CornerLeft(v, node, p, g)
    ensures SettledTree(StraightLeft(v, node, p, g),
                        RedUpHeights(bh, g, if v.links[p].r == node then node else p), v.order)
  {
    assert v.LinkedAt(node) && v.LinkedAt(p) && v.LinkedAt(g);
    LinkedIsKin(v);
    if v.links[p].r == node {
      ZigZagLeft(v, bh, node, p, g);
    } else {
      LiftSiteRight(v, bh, g, p);
      LiftRightKeeps(v, bh, null, null, p, g, p);
    }
  }

  lemma ZigZagLeft(v: View, bh: Heights, node: RbNode, p: RbNode, g: RbNode)
    requires DoubleRed(v, bh, node) && Elders(v, node, p, g)
    requires v.links[g].l == p && Black(v.links, v.links[g].r) && v.links[p].r == node
    ensures g in bh && CornerLeft(v, node, p, g)
    ensures SettledTree(StraightLeft(v, node, p, g), RedUpHeights(bh, g, node), v.order)
  {
    assert v.LinkedAt(node) && v.LinkedAt(p) && v.LinkedAt(g);
    LinkedIsKin(v);
    RotatableFacts(v, p, node);
    RotateLeftLinked(v, p);
    ZigZag(v.links, bh, p, node);
    var w := v.RotateLeft(p);
    LiftSiteRight(w, bh, g, node);
    LiftRightKeeps(w, bh, null, null, node, g, node);
  }

  lemma StraightRightKeeps(v: View, bh: Heights, node: RbNode, p: RbNode, g: RbNode)
    requires DoubleRed(v, bh, node) && Elders(v, node, p, g)
    requires v.links[g].r == p && Black(v.links, v.links[g].l)
    ensures g in bh && CornerRight(v, node, p, g)
    ensures SettledTree(StraightRight(v, node, p, g),
                        RedUpHeights(bh, g, if v.links[p].l == node then node else p), v.order)
  {
    assert v.LinkedAt(node) && v.LinkedAt(p) && v.LinkedAt(g);
    LinkedIsKin(v);
    if v.links[p].l == node {
      RotatableRightFacts(v, p, node);
      RotateRightLinked(v, p);
      ZigZagRight(v.links, bh, p, node);
      var w := v.RotateRight(p);
      LiftSite(w, bh, g, node);
      LiftLeftKeeps(w, bh, null, null, node, g, node);
    } else {
      LiftSite(v, bh, g, p);
      LiftLeftKeeps(v, bh, null, null, p, g, p);
    }
  }

  // The double red is gone when the parent is black or missing.
  lemma CalmParent(v: View, bh: Heights, node: RbNode)
    requires DoubleRed(v, bh, node)
    requires v.links[node].p != null ==> v.links[v.links[node].p].black
    ensures Good(v.links, bh, null, null, null)
  {
    var p := v.links[node].p;
    if p != null {
      Tighten(v.links, bh, null, null, p);
    }
  }

  lemma RootPainted(v: View, bh: Heights, root: RbNode)
    requires v.Linked() && Good(v.links, bh, null, null, null) && v.root == root
    ensures root in v.links && root in bh
    ensures SettledTree(v.(links := Painted(v.links, root, true)),
                        if v.links[root].black then bh else bh[root := bh[root] + 1], v.order)
  {
    LinkedIsKin(v);
    PaintedLinked(v, root, true);
    BlackenRoot(v.links, bh, null, root);
  }

  lemma AttachKeeps(v: View, bh: Heights, n: RbNode, hot: RbNode, left: bool)
    requires v.Linked() && Good(v.links, bh, null, null, null) && FreeSlot(v.links, n, hot, left)
    requires v.root != null && v.root in v.links && v.links[v.root].black
    ensures v.LinkedAt(hot) && v.With(n, hot, left).links[n].p == hot
    ensures DoubleRed(v.With(n, hot, left), bh[n := 0], n)
  {
    assert v.LinkedAt(hot);
    LinkedIsKin(v);
    WithLinked(v, n, hot, left);
    Attach(v.links, bh, n, hot, left);
  }

  // --- Size ---------------------------------------------------------------------

  lemma NodesHavePlaces(v: View)
    requires v.Linked()
    ensures forall n :: n in v.links ==> n in v.pos && 0 <= v.pos[n].idx < |v.order| && v.order[v.pos[n].idx] == n
  {
    forall n | n in v.links
      ensures n in v.pos && 0 <= v.pos[n].idx < |v.order| && v.order[v.pos[n].idx] == n
    {
      assert v.LinkedAt(n);
    }
  }

  lemma PlacesHaveNodes(v: View)
    requires v.Linked()
    ensures forall n :: n in v.order ==> n in v.links
    ensures forall i :: 0 <= i < |v.order| ==>
      v.order[i] in v.links && v.order[i] in v.pos && v.pos[v.order[i]].idx == i
  {
    forall i | 0 <= i < |v.order|
      ensures v.order[i] in v.links && v.order[i] in v.pos && v.pos[v.order[i]].idx == i
    {
      assert v.OrderAt(i);
    }
  }

  // A subtree of black height b holds at least 2^b - 1 nodes.
  lemma {:induction false} SizeBound(v: View, bh: Heights, n: RbNode)
    requires v.Linked() && Good(v.links, bh, null, null, null) && n in v.links
    ensures n in bh && n in v.pos && bh[n] >= 0
    ensures Pow2(bh[n]) <= v.pos[n].hi - v.pos[n].lo + 1
    decreases if n in v.pos then v.pos[n].hi - v.pos[n].lo else 0
  {
    assert v.LinkedAt(n) && GoodAt(v.links, bh, null, null, n);
    var c := v.links[n];
    if c.l != null { assert v.LinkedAt(c.l); SizeBound(v, bh, c.l); }
    if c.r != null { assert v.LinkedAt(c.r); SizeBound(v, bh, c.r); }
    assert Pow2(0) == 1;
    if v.links[n].black { assert Pow2(bh[n]) == 2 * Pow2(bh[n] - 1); }
  }

  lemma HeightBound(v: View, bh: Heights, root: RbNode)
    requires v.Linked() && Good(v.links, bh, null, null, null) && v.root == root
    ensures root in bh && 0 <= bh[root] <= Log2(|v.order| + 1)
  {
    SizeBound(v, bh, root);
    var k := Log2(|v.order| + 1);
    if bh[root] > k {
      Pow2Grows(k, bh[root]);
    }
  }

  // An upper bound on the nodes on a path down from n.
  ghost function Toll(L: Links, bh: Heights, n: RbNode?): int {
    2 * H(bh, n) + (if Black(L, n) then 0 else 1)
  }

  ghost predicate StepDown(v: View, bh: Heights, n: RbNode, c: RbNode?, lo: int, hi: int) {
    && Toll(v.links, bh, c) + 1 <= Toll(v.links, bh, n)
    && (if c == null then lo == hi else c in v.links && c in v.pos && v.pos[c].lo == lo && v.pos[c].hi == hi)
  }

  // One step down costs at least one of the toll.
  lemma Descend(v: View, bh: Heights, n: RbNode)
    requires v.Linked() && Good(v.links, bh, null, null, null) && n in v.links
    ensures SpanOk(v, n) && Toll(v.links, bh, n) >= 1
    ensures StepDown(v, bh, n, v.links[n].l, v.pos[n].lo, v.pos[n].idx)
    ensures StepDown(v, bh, n, v.links[n].r, v.pos[n].idx + 1, v.pos[n].hi)
  {
    assert v.LinkedAt(n) && GoodAt(v.links, bh, null, null, n);
  }

  ghost predicate SpanOk(v: View, n: RbNode) {
    n in v.pos && v.SpanOk(n, v.pos[n])
  }
}
