// The steps of _fix_bb_new: the doomed node d is still linked but counts for
// nothing, and the cursor c stands for one black more than its colour says.
module RbErase {
  import opened RbShape
  import opened RbBalance
  import opened RbSteps
  import opened RbKeys

  ghost predicate InSpan(v: View, n: RbNode?, c: RbNode) {
    n != null && n in v.pos && c in v.pos && v.pos[c].lo <= v.pos[n].idx < v.pos[c].hi
  }

  ghost predicate Tree(v: View, d: RbNode) {
    v.Linked() && d in v.links && v.root != null && v.root in v.links && v.links[v.root].black
  }

  // The cursor is d, or it lies above d and d's parent is not a loose red.
  ghost predicate Sheltered(v: View, d: RbNode, c: RbNode)
    requires d in v.links
  {
    d != c ==>
      && InSpan(v, d, c) && InSpan(v, v.links[d].p, c) && v.links[d].p in v.links
      && (v.links[v.links[d].p].black || v.links[d].p == c)
  }

  ghost predicate Chasing(v: View, bh: Heights, d: RbNode, c: RbNode) {
    && Tree(v, d) && c in v.links && v.links[d].black
    && Good(v.links, bh, d, c, c) && Sheltered(v, d, c)
  }

  // The extra black has been spent; d may be unlinked.
  ghost predicate Absorbed(v: View, bh: Heights, d: RbNode) {
    && Tree(v, d) && Good(v.links, bh, d, null, null)
    && (v.links[d].p != null ==> v.links[d].p in v.links && v.links[v.links[d].p].black)
  }

  // What surrounds the cursor when it is not the root.
  ghost predicate Around(v: View, d: RbNode, c: RbNode, p: RbNode, w: RbNode) {
    && Kin(v.links) && d in v.links && c in v.links && p in v.links && w in v.links
    && KinAt(v.links, c) && KinAt(v.links, p) && KinAt(v.links, w)
    && v.links[c].p == p && v.links[w].p == p
    && ((v.links[p].l == c && v.links[p].r == w) || (v.links[p].l == w && v.links[p].r == c))
    && c != p && c != w && p != w && d != p && d != w
    && v.links[p].p !in {c, p, w, d}
    && (v.links[p].p != null ==> v.links[p].p != v.links[w].l && v.links[p].p != v.links[w].r)
    && v.links[w].l !in {c, p, w, d} && v.links[w].r !in {c, p, w, d}
    && (d != c ==> v.links[d].p !in {p, w, v.links[w].l, v.links[w].r})
    && c in v.pos && p in v.pos && w in v.pos
    && 0 <= v.pos[p].lo && v.pos[p].hi <= |v.order|
    && v.pos[c].hi - v.pos[c].lo < v.pos[p].hi - v.pos[p].lo
    && v.pos[p].lo <= v.pos[c].lo && v.pos[c].hi <= v.pos[p].hi
    && v.pos[p].lo <= v.pos[p].idx < v.pos[p].hi
  }

  ghost function Sibling(L: Links, p: RbNode, c: RbNode): RbNode?
    requires p in L
  {
    OtherChild(L, p, c)
  }

  // The sibling of a cursor with an extra black is there.
  lemma SiblingExists(v: View, bh: Heights, d: RbNode, c: RbNode)
    requires Chasing(v, bh, d, c) && c != v.root && v.links[c].black
    ensures Good(v.links, bh, d, c, null)
    ensures v.links[c].p != null && v.links[c].p in v.links
    ensures Sibling(v.links, v.links[c].p, c) != null && c in bh && bh[c] >= 1
  {
    assert v.LinkedAt(c);
    Tighten(v.links, bh, d, c, c);
    var p := v.links[c].p;
    assert v.LinkedAt(p);
    assert GoodAt(v.links, bh, d, c, p) && GoodAt(v.links, bh, d, c, c);
  }

  lemma ChildSpan(v: View, n: RbNode, x: RbNode)
    requires v.Linked() && n in v.links && x in v.links && v.links[x].p == n
    ensures x in v.pos && n in v.pos && x != n
    ensures v.pos[n].lo <= v.pos[x].lo <= v.pos[x].idx < v.pos[x].hi <= v.pos[n].hi
    ensures v.pos[x].hi <= v.pos[n].idx || v.pos[n].idx < v.pos[x].lo
  {
    Nested(v, x);
    assert v.LinkedAt(n);
  }

  lemma Surround(v: View, bh: Heights, d: RbNode, c: RbNode, p: RbNode, w: RbNode)
    requires Chasing(v, bh, d, c) && v.links[c].p == p && p in v.links && w == Sibling(v.links, p, c)
    ensures Around(v, d, c, p, w)
  {
    LinkedIsKin(v);
    assert KinAt(v.links, c) && KinAt(v.links, p) && KinAt(v.links, w) && KinAt(v.links, d);
    assert v.LinkedAt(p) && v.LinkedAt(c) && v.LinkedAt(w) && v.LinkedAt(d);
    ChildSpan(v, p, c);
    ChildSpan(v, p, w);
    if v.links[p].p != null { Nested(v, p); }
    if v.links[w].l != null { ChildSpan(v, w, v.links[w].l); }
    if v.links[w].r != null { ChildSpan(v, w, v.links[w].r); }
  }

  // --- Red sibling -----------------------------------------------------------

  // A rotation over black p and its red child w leaves the chase where it was.
  lemma RedSiblingLeft(v: View, bh: Heights, d: RbNode, c: RbNode, p: RbNode, w: RbNode)
    requires Chasing(v, bh, d, c) && v.links[c].black && Around(v, d, c, p, w)
    requires v.links[p].l == c && !v.links[w].black
    ensures p in bh && Liftable(v, p, w)
    ensures var v' := LiftedLeft(v, p, w);
      && Chasing(v', RedUpHeights(bh, p, w), d, c) && v'.links[d] == v.links[d] && v'.order == v.order
      && v'.links[c].black && v'.links[c].p == p && v'.links[p].l == c
      && Black(v'.links, v'.links[p].r) && v'.pos[c] == v.pos[c] && c != v'.root
  {
    Tighten(v.links, bh, d, c, c);
    assert GoodAt(v.links, bh, d, c, p) && GoodAt(v.links, bh, d, c, w);
    assert RedUpSite(v.links, bh, d, c, p, w);
    LiftLeftKeeps(v, bh, d, c, null, p, w);
    var v' := LiftedLeft(v, p, w);
    assert v.LinkedAt(p);
    Loosen(v'.links, RedUpHeights(bh, p, w), d, c);
    assert KinAt(v.links, d);
    assert v'.LinkedAt(c);
  }

  // A rotation over black p and its red child w leaves the chase where it was.
  lemma RedSiblingRight(v: View, bh: Heights, d: RbNode, c: RbNode, p: RbNode, w: RbNode)
    requires Chasing(v, bh, d, c) && v.links[c].black && Around(v, d, c, p, w)
    requires v.links[p].r == c && !v.links[w].black
    ensures p in bh && LiftableRight(v, p, w)
    ensures var v' := LiftedRight(v, p, w);
      && Chasing(v', RedUpHeights(bh, p, w), d, c) && v'.links[d] == v.links[d] && v'.order == v.order
      && v'.links[c].black && v'.links[c].p == p && v'.links[p].r == c
      && Black(v'.links, v'.links[p].l) && v'.pos[c] == v.pos[c] && c != v'.root
  {
    Tighten(v.links, bh, d, c, c);
    assert GoodAt(v.links, bh, d, c, p) && GoodAt(v.links, bh, d, c, w);
    assert RedUpSite(Mirrored(v.links), bh, d, c, p, w);
    LiftRightKeeps(v, bh, d, c, null, p, w);
    RedSiblingRightLinks(v, bh, d, c, p, w);
    var v' := LiftedRight(v, p, w);
    Loosen(v'.links, RedUpHeights(bh, p, w), d, c);
    assert KinAt(v.links, d);
    assert v'.LinkedAt(c);
  }

  lemma RedSiblingRightLinks(v: View, bh: Heights, d: RbNode, c: RbNode, p: RbNode, w: RbNode)
    requires Chasing(v, bh, d, c) && v.links[c].black && Around(v, d, c, p, w)
    requires v.links[p].r == c && !v.links[w].black && LiftableRight(v, p, w)
    ensures var v' := LiftedRight(v, p, w);
      && v'.links[d] == v.links[d] && v'.order == v.order
      && v'.links[c].black && v'.links[c].p == p && v'.links[p].r == c
      && Black(v'.links, v'.links[p].l) && v'.pos[c] == v.pos[c] && c != v'.root
  {
    Tighten(v.links, bh, d, c, c);
    assert GoodAt(v.links, bh, d, c, w) && v.LinkedAt(p) && KinAt(v.links, d);
  }

  lemma Loosen(L: Links, bh: Heights, d: RbNode?, c: RbNode)
    requires Good(L, bh, d, c, null) && c in L
    ensures Good(L, bh, d, c, c)
  {
    assert GoodAt(L, bh, d, c, c);
  }

  // --- Both nephews black --------------------------------------------------------

  lemma BothBlackKeeps(v: View, bh: Heights, d: RbNode, c: RbNode, p: RbNode, w: RbNode)
    requires Chasing(v, bh, d, c) && v.links[c].black && Around(v, d, c, p, w)
    requires v.links[w].black && Black(v.links, v.links[w].l) && Black(v.links, v.links[w].r)
    ensures w in bh && c in bh
    ensures var v' := v.(links := Painted(v.links, w, false));
      Chasing(v', bh[w := bh[w] - 1][c := bh[c] - 1], d, p) && v'.links[d] == v.links[d]
  {
    Tighten(v.links, bh, d, c, c);
    BothBlack(v.links, bh, d, c, p, w);
    PaintedLinked(v, w, false);
    assert v.LinkedAt(w) && v.LinkedAt(p) && v.LinkedAt(c);
  }

  // --- Near nephew red, far nephew black --------------------------------------------

  lemma NearRedLeft(v: View, bh: Heights, d: RbNode, c: RbNode, p: RbNode, w: RbNode, near: RbNode)
    requires Chasing(v, bh, d, c) && v.links[c].black && Around(v, d, c, p, w)
    requires v.links[p].l == c && v.links[w].black && v.links[w].l == near && near in v.links
    requires !v.links[near].black && Black(v.links, v.links[w].r)
    ensures w in bh && LiftableRight(v, w, near)
    ensures var v' := LiftedRight(v, w, near);
      && Chasing(v', RedUpHeights(bh, w, near), d, c) && v'.links[d] == v.links[d] && v'.order == v.order
      && v'.links[c].black && v'.links[c].p == p && v'.links[p].l == c && v'.links[p].r == near
      && v'.links[near].black && v'.links[near].r == w && !v'.links[w].black
      && v'.pos[c] == v.pos[c] && v'.root == v.root && p in v'.links && near in v'.links && w in v'.links
  {
    Tighten(v.links, bh, d, c, c);
    assert GoodAt(v.links, bh, d, c, w) && GoodAt(v.links, bh, d, c, near);
    NearRedSiteLeft(v, bh, d, c, p, w, near);
    LiftRightKeeps(v, bh, d, c, null, w, near);
    NearRedLinks(v, bh, d, c, p, w, near);
    var v' := LiftedRight(v, w, near);
    Loosen(v'.links, RedUpHeights(bh, w, near), d, c);
    assert KinAt(v.links, d);
    assert v'.LinkedAt(c);
  }

  lemma NearRedLinks(v: View, bh: Heights, d: RbNode, c: RbNode, p: RbNode, w: RbNode, near: RbNode)
    requires Chasing(v, bh, d, c) && v.links[c].black && Around(v, d, c, p, w)
    requires v.links[p].l == c && v.links[w].black && v.links[w].l == near && near in v.links
    requires !v.links[near].black && LiftableRight(v, w, near)
    ensures var v' := LiftedRight(v, w, near);
      && v'.links[d] == v.links[d] && v'.order == v.order
      && v'.links[c].black && v'.links[c].p == p && v'.links[p].l == c && v'.links[p].r == near
      && v'.links[near].black && v'.links[near].r == w && !v'.links[w].black
      && v'.pos[c] == v.pos[c] && v'.root == v.root && p in v'.links && near in v'.links && w in v'.links
  {
    assert v.LinkedAt(w) && v.LinkedAt(p);
    assert KinAt(v.links, d) && KinAt(v.links, near);
  }

  lemma NearRedSiteLeft(v: View, bh: Heights, d: RbNode, c: RbNode, p: RbNode, w: RbNode, near: RbNode)
    requires Good(v.links, bh, d, c, null) && Around(v, d, c, p, w)
    requires v.links[w].black && v.links[w].l == near && near in v.links
    requires !v.links[near].black && Black(v.links, v.links[w].r)
    ensures RedUpSite(Mirrored(v.links), bh, d, c, w, near)
  {
    assert GoodAt(v.links, bh, d, c, near);
    MirrorKin(v.links);
    assert KinAt(Mirrored(v.links), w) && KinAt(Mirrored(v.links), near);
  }

  lemma NearRedRight(v: View, bh: Heights, d: RbNode, c: RbNode, p: RbNode, w: RbNode, near: RbNode)
    requires Chasing(v, bh, d, c) && v.links[c].black && Around(v, d, c, p, w)
    requires v.links[p].r == c && v.links[w].black && v.links[w].r == near && near in v.links
    requires !v.links[near].black && Black(v.links, v.links[w].l)
    ensures w in bh && Liftable(v, w, near)
    ensures var v' := LiftedLeft(v, w, near);
      && Chasing(v', RedUpHeights(bh, w, near), d, c) && v'.links[d] == v.links[d] && v'.order == v.order
      && v'.links[c].black && v'.links[c].p == p && v'.links[p].r == c && v'.links[p].l == near
      && v'.links[near].black && v'.links[near].l == w && !v'.links[w].black
      && v'.pos[c] == v.pos[c] && v'.root == v.root && p in v'.links && near in v'.links && w in v'.links
  {
    Tighten(v.links, bh, d, c, c);
    assert GoodAt(v.links, bh, d, c, w) && GoodAt(v.links, bh, d, c, near);
    NearRedSiteRight(v, bh, d, c, p, w, near);
    LiftLeftKeeps(v, bh, d, c, null, w, near);
    var v' := LiftedLeft(v, w, near);
    assert v.LinkedAt(w) && v.LinkedAt(p);
    Loosen(v'.links, RedUpHeights(bh, w, near), d, c);
    assert KinAt(v.links, d) && KinAt(v.links, near);
    assert v'.LinkedAt(c);
  }

  lemma NearRedSiteRight(v: View, bh: Heights, d: RbNode, c: RbNode, p: RbNode, w: RbNode, near: RbNode)
    requires Good(v.links, bh, d, c, null) && Around(v, d, c, p, w)
    requires v.links[w].black && v.links[w].r == near && near in v.links
    requires !v.links[near].black && Black(v.links, v.links[w].l)
    ensures RedUpSite(v.links, bh, d, c, w, near)
  {
    assert GoodAt(v.links, bh, d, c, near);
    MirrorKin(v.links);
    assert KinAt(Mirrored(v.links), w) && KinAt(Mirrored(v.links), near);
  }

  // --- Far nephew red ------------------------------------------------------------------

  ghost function FarRedLeftView(v: View, p: RbNode, w: RbNode, far: RbNode): View
    requires p in v.links && w in v.links && far in v.links && p in v.pos && w in v.pos
  {
    View(FarRedLinks(v.links, p, w, far), if v.root == p then w else v.root, v.order, TiltedLeft(v.pos, p, w))
  }

  lemma FarRedLeftLinked(v: View, p: RbNode, w: RbNode, far: RbNode)
    requires v.Linked() && p in v.links && far in v.links && v.links[p].r == w
    ensures w in v.links && v.LinkedAt(p) && v.LinkedAt(w)
    ensures FarRedLeftView(v, p, w, far).Linked()
    ensures Rotatable(Painted(Painted(Painted(v.links, w, v.links[p].black), p, true), far, true), p)
    ensures v.links[p].p == null <==> p == v.root
  {
    assert v.LinkedAt(p) && v.LinkedAt(w);
    var v1 := v.(links := Painted(v.links, w, v.links[p].black));
    PaintedLinked(v, w, v.links[p].black);
    var v2 := v1.(links := Painted(v1.links, p, true));
    PaintedLinked(v1, p, true);
    var v3 := v2.(links := Painted(v2.links, far, true));
    PaintedLinked(v2, far, true);
    RotatableFacts(v3, p, w);
    RotateLeftLinked(v3, p);
    assert FarRedLeftView(v, p, w, far) == v3.RotateLeft(p);
  }

  lemma FarRedLeftKeeps(v: View, bh: Heights, d: RbNode, c: RbNode, p: RbNode, w: RbNode, far: RbNode)
    requires Chasing(v, bh, d, c) && v.links[c].black && Around(v, d, c, p, w)
    requires v.links[p].l == c && v.links[w].black && v.links[w].r == far && far in v.links && !v.links[far].black
    ensures c in bh && p in bh && far in bh
    ensures var v' := FarRedLeftView(v, p, w, far);
      && Absorbed(v', FarRedHeights(bh, c, p, w, far), d)
      && v'.links[d] == v.links[d] && v'.order == v.order
  {
    Tighten(v.links, bh, d, c, c);
    FarRedLeftLinked(v, p, w, far);
    LinkedIsKin(v);
    assert KinAt(v.links, far) && KinAt(v.links, d);
    FarRed(v.links, bh, d, c, p, w, far);
    assert v.LinkedAt(p);
  }

  ghost function FarRedRightView(v: View, p: RbNode, w: RbNode, far: RbNode): View
    requires p in v.links && w in v.links && far in v.links && p in v.pos && w in v.pos
  {
    View(FarRedRightLinks(v.links, p, w, far), if v.root == p then w else v.root, v.order, TiltedRight(v.pos, p, w))
  }

  lemma FarRedRightLinked(v: View, p: RbNode, w: RbNode, far: RbNode)
    requires v.Linked() && p in v.links && far in v.links && v.links[p].l == w
    ensures w in v.links && v.LinkedAt(p) && v.LinkedAt(w)
    ensures FarRedRightView(v, p, w, far).Linked()
    ensures RotatableRight(Painted(Painted(Painted(v.links, w, v.links[p].black), p, true), far, true), p)
    ensures v.links[p].p == null <==> p == v.root
  {
    assert v.LinkedAt(p) && v.LinkedAt(w);
    var v1 := v.(links := Painted(v.links, w, v.links[p].black));
    PaintedLinked(v, w, v.links[p].black);
    var v2 := v1.(links := Painted(v1.links, p, true));
    PaintedLinked(v1, p, true);
    var v3 := v2.(links := Painted(v2.links, far, true));
    PaintedLinked(v2, far, true);
    RotatableRightFacts(v3, p, w);
    RotateRightLinked(v3, p);
    assert FarRedRightView(v, p, w, far) == v3.RotateRight(p);
  }

  lemma FarRedRightKeeps(v: View, bh: Heights, d: RbNode, c: RbNode, p: RbNode, w: RbNode, far: RbNode)
    requires Chasing(v, bh, d, c) && v.links[c].black && Around(v, d, c, p, w)
    requires v.links[p].r == c && v.links[w].black && v.links[w].l == far && far in v.links && !v.links[far].black
    ensures c in bh && p in bh && far in bh
    ensures var v' := FarRedRightView(v, p, w, far);
      && Absorbed(v', FarRedHeights(bh, c, p, w, far), d)
      && v'.links[d] == v.links[d] && v'.order == v.order
  {
    Tighten(v.links, bh, d, c, c);
    FarRedRightLinked(v, p, w, far);
    LinkedIsKin(v);
    assert KinAt(v.links, far) && KinAt(v.links, d);
    FarRedRight(v.links, bh, d, c, p, w, far);
    assert v.LinkedAt(p);
  }

  // --- The end of the chase -----------------------------------------------------------

  lemma SettleKeeps(v: View, bh: Heights, d: RbNode, c: RbNode)
    requires Chasing(v, bh, d, c) && (c == v.root || !v.links[c].black)
    ensures c in bh
    ensures var v' := v.(links := Painted(v.links, c, true));
      Absorbed(v', SettledHeights(v.links, bh, c), d) && v'.links[d] == v.links[d]
  {
    LinkedIsKin(v);
    Settle(v.links, bh, d, c);
    PaintedLinked(v, c, true);
    assert v.LinkedAt(d) && v.LinkedAt(c);
  }

  lemma HasParent(v: View, x: RbNode)
    requires v.Linked() && x in v.links && x != v.root
    ensures var p := v.links[x].p; p != null && p in v.links && (v.links[p].l == x || v.links[p].r == x)
  {
    assert v.LinkedAt(x);
    Nested(v, x);
  }

  // --- Progress -------------------------------------------------------------------------

  // 0 once the sibling is black with a red far child: the next round ends it.
  ghost function Phase(v: View, c: RbNode): int
  {
    if c in v.links && v.links[c].p != null && v.links[c].p in v.links then
      var p := v.links[c].p;
      var w := Sibling(v.links, p, c);
      if w != null && w in v.links && v.links[w].black
         && !Black(v.links, if v.links[p].l == c then v.links[w].r else v.links[w].l)
      then 0 else 1
    else 1
  }

  ghost function Width(v: View, c: RbNode): int {
    if c in v.pos then v.pos[c].hi - v.pos[c].lo else 0
  }

  // One round moved the cursor up or made the next round the last one.
  ghost predicate Progress(v: View, c: RbNode, v': View, c': RbNode) {
    || Width(v, c) < Width(v', c') <= |v'.order|
    || (Width(v, c) == Width(v', c') && Phase(v', c') < Phase(v, c))
  }

  // --- Trading places with the successor -----------------------------------------------

  ghost predicate Follows(v: View, x: RbNode, r: RbNode) {
    && x in v.links && r in v.links && x in v.pos && r in v.pos && x != r
    && v.pos[r].idx == v.pos[x].idx + 1 && v.links[r].l == null
    && v.pos[x].lo <= v.pos[r].lo && v.pos[r].hi <= v.pos[x].hi
  }

  // A successor below x is no sibling of x.
  lemma NoSiblings(v: View, x: RbNode, r: RbNode)
    requires v.Linked() && Follows(v, x, r)
    ensures v.links[r].p != null && v.links[x].p != v.links[r].p
  {
    assert v.LinkedAt(r) && v.LinkedAt(x);
    if v.links[r].p != null { Nested(v, r); }
    if v.links[x].p != null { Nested(v, x); }
  }

  ghost predicate Erases(s: seq<RbNode>, k: int, t: seq<RbNode>) {
    0 <= k < |s| && t == Erased(s, k)
  }

  // The tree in which x stands where its successor r stood.
  lemma RenameKeeps(v: View, bh: Heights, x: RbNode, r: RbNode)
    requires RedBlack(v, bh) && Follows(v, x, r)
    ensures x in bh && r in bh
    ensures var v', bh' := v.Rename(x, r), RenamedHeights(bh, x, r);
      && RedBlack(v', bh') && x in v'.pos && v'.pos[x].idx == v.pos[r].idx
      && SoleChild(v'.links, x, v.links[r].r) && v'.links[x].black == v.links[r].black
  {
    RenameLinked(v, x, r);
    LinkedIsKin(v);
    RenameGood(v.links, bh, null, null, x, r);
    assert v.LinkedAt(r) && v.LinkedAt(x);
  }

  lemma RenamedOrder(v: View, x: RbNode, r: RbNode, t: seq<RbNode>)
    requires v.Linked() && Follows(v, x, r)
    requires Erases(v.Rename(x, r).order, v.pos[r].idx, t)
    ensures Erases(v.order, v.pos[x].idx, t)
  {
    assert v.LinkedAt(r) && v.LinkedAt(x);
    var i, s := v.pos[x].idx, v.Rename(x, r).order;
    forall j | 0 <= j < |v.order| && j != i && j != i + 1
      ensures s[j] == v.order[j]
    {
      assert v.OrderAt(j);
    }
    assert t == v.order[..i] + v.order[i + 1..];
  }

  // Ready for _transplant: x has at most one child, and whatever black it stood
  // for has been spent.
  ghost predicate Loosened(v: View, bh: Heights, x: RbNode, sc: RbNode?) {
    && Tree(v, x) && Good(v.links, bh, x, null, null) && SoleChild(v.links, x, sc)
    && (sc != null && v.links[x].p != null ==> v.links[x].p in v.links && v.links[v.links[x].p].black)
  }

  lemma DoomedStart(v: View, bh: Heights, x: RbNode, sc: RbNode?)
    requires RedBlack(v, bh) && SoleChild(v.links, x, sc)
    ensures v.links[x].black ==> Chasing(v, bh, x, x)
    ensures !v.links[x].black ==> Loosened(v, bh, x, sc)
  {
    Doom(v.links, bh, x);
    assert v.LinkedAt(x);
    assert v.root != null;
    if v.links[x].black {
      Loosen(v.links, bh, x, x);
    } else if sc != null {
      LeafBelow(v, bh, x, sc);
    }
  }

  lemma LeafBelow(v: View, bh: Heights, x: RbNode, sc: RbNode)
    requires v.Linked() && Good(v.links, bh, x, null, null) && SoleChild(v.links, x, sc)
    ensures sc in v.links && sc != x && sc != v.links[x].p
    ensures v.links[sc].l == null && v.links[sc].r == null && v.links[x].black && !v.links[sc].black
  {
    assert v.LinkedAt(x);
    assert v.LinkedAt(sc);
    ChildSpan(v, x, sc);
    if v.links[sc].l != null { ChildSpan(v, sc, v.links[sc].l); }
    if v.links[sc].r != null { ChildSpan(v, sc, v.links[sc].r); }
    if v.links[x].p != null { Nested(v, x); }
    LoneChildIsRedLeaf(v.links, bh, x, x, sc);
  }

  // Unlinking x leaves a tree that is balanced but for a possibly red root.
  lemma UnlinkKeeps(v: View, bh: Heights, x: RbNode, sc: RbNode?)
    requires Loosened(v, bh, x, sc)
    ensures x in v.pos && 0 <= v.pos[x].idx < |v.order| && Kin(v.links)
    ensures LeafOrNone(v.links, sc) && (sc != null ==> sc != v.links[x].p)
    ensures v.Without(x, sc).Linked() && Good(v.Without(x, sc).links, bh - {x}, null, null, null)
    ensures (v.links[x].p == null) <==> (v.root == x)
  {
    LinkedIsKin(v);
    WithoutLinked(v, x, sc);
    assert v.LinkedAt(x);
    if sc != null {
      LeafBelow(v, bh, x, sc);
    }
    Unlink(v.links, bh, x, sc);
  }
}
