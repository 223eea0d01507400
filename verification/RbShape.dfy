// The shape of an intrusive binary tree as a value: which node links to which,
// and the span of in-order positions that every subtree occupies.  Rotations
// and position changes of src/rbtree.c are functions on this value.
module RbShape {

  class RbNode {
    const addr: nat
    var key: int
    var addrEnd: int
    var lchild: RbNode?
    var rchild: RbNode?
    var p: RbNode?
    var isblack: bool

    constructor (addr: nat, key: int, addrEnd: int)
      ensures this.addr == addr && this.key == key && this.addrEnd == addrEnd
      ensures lchild == null && rchild == null && p == null && !isblack
    {
      this.addr := addr;
      this.key := key;
      this.addrEnd := addrEnd;
      lchild, rchild, p, isblack := null, null, null, false;
    }
  }

  // The links and the colour stored in one node.
  datatype Cell = Cell(l: RbNode?, r: RbNode?, p: RbNode?, black: bool)

  type Links = map<RbNode, Cell>

  ghost function Painted(L: Links, n: RbNode, black: bool): Links
    requires n in L
  {
    L[n := L[n].(black := black)]
  }

  // The links after node and its right child rc have traded places.
  ghost function Rotated(L: Links, node: RbNode, rc: RbNode): Links
    requires node in L && rc in L
  {
    map m | m in L ::
      if m == node then L[node].(r := L[rc].l, p := rc)
      else if m == rc then L[rc].(l := node, p := L[node].p)
      else Cell(if L[m].l == node then rc else L[m].l,
                if L[m].r == node then rc else L[m].r,
                if m == L[rc].l then node else L[m].p,
                L[m].black)
  }

  ghost function Mirrored(L: Links): Links {
    map n | n in L :: L[n].(l := L[n].r, r := L[n].l)
  }

  // The links after node and its left child lc have traded places.
  ghost function RotatedRight(L: Links, node: RbNode, lc: RbNode): Links
    requires node in L && lc in L
  {
    map m | m in L ::
      if m == node then L[node].(l := L[lc].r, p := lc)
      else if m == lc then L[lc].(r := node, p := L[node].p)
      else Cell(if L[m].l == node then lc else L[m].l,
                if L[m].r == node then lc else L[m].r,
                if m == L[lc].r then node else L[m].p,
                L[m].black)
  }

  lemma MirrorRotated(L: Links, node: RbNode, lc: RbNode)
    requires node in L && lc in L
    ensures Mirrored(Rotated(Mirrored(L), node, lc)) == RotatedRight(L, node, lc)
  {
  }

  lemma MirrorPainted(L: Links, n: RbNode, black: bool)
    requires n in L
    ensures Mirrored(Painted(L, n, black)) == Painted(Mirrored(L), n, black)
  {
  }

  // The transposition of a and b.
  ghost function Swap(a: RbNode, b: RbNode, m: RbNode): RbNode {
    if m == a then b else if m == b then a else m
  }

  ghost function SwapN(a: RbNode, b: RbNode, m: RbNode?): RbNode? {
    if m == null then null else Swap(a, b, m)
  }

  // The same tree with a standing where b stood and b where a stood.
  ghost function Renamed(L: Links, a: RbNode, b: RbNode): Links
    requires a in L && b in L
  {
    map m | m in L ::
      var c := L[Swap(a, b, m)];
      Cell(SwapN(a, b, c.l), SwapN(a, b, c.r), SwapN(a, b, c.p), c.black)
  }

  // The links without x, whose only child sc (if any) takes its place.
  ghost function Removed(L: Links, x: RbNode, sc: RbNode?): Links
    requires x in L
  {
    map m | m in L && m != x ::
      Cell(if L[m].l == x then sc else L[m].l,
           if L[m].r == x then sc else L[m].r,
           if m == sc then L[x].p else L[m].p,
           L[m].black)
  }

  // The links with a new red leaf n under hot.
  ghost function Attached(L: Links, n: RbNode, hot: RbNode, left: bool): Links
    requires hot in L
  {
    L[hot := if left then L[hot].(l := n) else L[hot].(r := n)][n := Cell(null, null, hot, false)]
  }

  // Parent and child links agree.
  ghost predicate KinAt(L: Links, n: RbNode) {
    && n in L
    && (L[n].l != null ==> L[n].l in L && L[L[n].l].p == n && L[n].l != L[n].r)
    && (L[n].r != null ==> L[n].r in L && L[L[n].r].p == n)
    && (L[n].p != null ==> L[n].p in L && L[n].p != n && (L[L[n].p].l == n || L[L[n].p].r == n))
  }

  ghost predicate Kin(L: Links) {
    forall n {:trigger KinAt(L, n)} :: n in L ==> KinAt(L, n)
  }

  // A subtree holds the in-order positions [lo, hi), its top position idx.
  datatype Span = Span(lo: int, idx: int, hi: int)

  ghost function TiltedLeft(pos: map<RbNode, Span>, node: RbNode, rc: RbNode): map<RbNode, Span>
    requires node in pos && rc in pos
  {
    pos[node := Span(pos[node].lo, pos[node].idx, pos[rc].idx)]
       [rc := Span(pos[node].lo, pos[rc].idx, pos[rc].hi)]
  }

  ghost function TiltedRight(pos: map<RbNode, Span>, node: RbNode, lc: RbNode): map<RbNode, Span>
    requires node in pos && lc in pos
  {
    pos[node := Span(pos[lc].idx + 1, pos[node].idx, pos[node].hi)]
       [lc := Span(pos[lc].lo, pos[lc].idx, pos[node].hi)]
  }

  datatype View = View(links: Links, root: RbNode?,
                       order: seq<RbNode>, pos: map<RbNode, Span>)
  {
    ghost predicate ChildOk(child: RbNode?, parent: RbNode, lo: int, hi: int) {
      if child == null then lo == hi
      else
        && child in links && child in pos
        && links[child].p == parent && pos[child].lo == lo && pos[child].hi == hi
    }

    ghost predicate ParentOk(n: RbNode, parent: RbNode?) {
      if parent == null then n == root
      else parent in links && (links[parent].l == n || links[parent].r == n)
    }

    ghost predicate SpanOk(n: RbNode, s: Span) {
      0 <= s.lo <= s.idx < s.hi <= |order| && order[s.idx] == n
    }

    ghost predicate LinkedAt(n: RbNode) {
      && n in links && n in pos
      && var c, s := links[n], pos[n];
      && SpanOk(n, s)
      && ChildOk(c.l, n, s.lo, s.idx)
      && ChildOk(c.r, n, s.idx + 1, s.hi)
      && ParentOk(n, c.p)
    }

    ghost predicate OrderAt(i: int)
      requires 0 <= i < |order|
    {
      order[i] in links && order[i] in pos && pos[order[i]].idx == i
    }

    // Links, spans and the in-order sequence describe one binary tree.
    ghost predicate Linked() {
      && links.Keys == pos.Keys
      && (root == null <==> order == [])
      && (root != null ==>
            && root in links && links[root].p == null
            && pos[root].lo == 0 && pos[root].hi == |order|)
      && (forall n {:trigger LinkedAt(n)} :: n in links ==> LinkedAt(n))
      && (forall i {:trigger OrderAt(i)} :: 0 <= i < |order| ==> OrderAt(i))
    }

    ghost function MirrorSpan(s: Span): Span {
      Span(|order| - s.hi, |order| - 1 - s.idx, |order| - s.lo)
    }

    ghost function Mirror(): (v: View)
    {
      View(Mirrored(links),
           root,
           seq(|order|, i requires 0 <= i < |order| => order[|order| - 1 - i]),
           map n | n in pos :: MirrorSpan(pos[n]))
    }

    ghost function RotateLeft(node: RbNode): View
      requires node in links && links[node].r != null && links[node].r in links
      requires node in pos && links[node].r in pos
    {
      var rc := links[node].r;
      View(Rotated(links, node, rc),
           if root == node then rc else root,
           order,
           TiltedLeft(pos, node, rc))
    }

    ghost function RotateRight(node: RbNode): View
      requires node in links && links[node].l != null && links[node].l in links
      requires node in pos && links[node].l in pos
    {
      var lc := links[node].l;
      View(RotatedRight(links, node, lc),
           if root == node then lc else root,
           order,
           TiltedRight(pos, node, lc))
    }

    ghost function Rename(a: RbNode, b: RbNode): View
      requires a in links && b in links && links.Keys == pos.Keys
    {
      View(Renamed(links, a, b),
           SwapN(a, b, root),
           seq(|order|, i requires 0 <= i < |order| => Swap(a, b, order[i])),
           map m | m in pos :: pos[Swap(a, b, m)])
    }

    // Unlink x, whose only child sc (if any) takes its place.
    ghost function Without(x: RbNode, sc: RbNode?): View
      requires x in links && x in pos && 0 <= pos[x].idx < |order|
    {
      var k := pos[x].idx;
      View(Removed(links, x, sc),
           if root == x then sc else root,
           order[..k] + order[k + 1..],
           map m | m in pos && m != x :: Close(pos[m], k))
    }

    ghost function Slot(hot: RbNode, left: bool): int
      requires hot in pos
    {
      if left then pos[hot].idx else pos[hot].idx + 1
    }

    // Link the new leaf n under hot.
    ghost function With(n: RbNode, hot: RbNode, left: bool): View
      requires hot in links && hot in pos && 0 <= pos[hot].idx < |order|
    {
      var k := Slot(hot, left);
      View(Attached(links, n, hot, left),
           root,
           order[..k] + [n] + order[k..],
           (map m | m in pos :: Open(pos[m], k, left))[n := Span(k, k, k + 1)])
    }
  }

  // Position k disappears.
  ghost function Close(s: Span, k: int): Span {
    Span(if s.lo > k then s.lo - 1 else s.lo,
         if s.idx > k then s.idx - 1 else s.idx,
         if s.hi > k then s.hi - 1 else s.hi)
  }

  // Position k appears, inside every span that holds the new leaf's parent.
  ghost function Open(s: Span, k: int, left: bool): Span {
    Span(if s.lo > k || (!left && s.lo == k) then s.lo + 1 else s.lo,
         if s.idx >= k then s.idx + 1 else s.idx,
         if s.hi > k || (!left && s.hi == k) then s.hi + 1 else s.hi)
  }

  lemma LinkedIsKin(v: View)
    requires v.Linked()
    ensures Kin(v.links)
  {
    forall n | n in v.links
      ensures KinAt(v.links, n)
    {
      assert v.LinkedAt(n);
      if v.links[n].l != null { assert v.LinkedAt(v.links[n].l); }
      if v.links[n].r != null { assert v.LinkedAt(v.links[n].r); }
      if v.links[n].p != null { assert v.LinkedAt(v.links[n].p); }
    }
  }

  lemma RenameAt(v: View, a: RbNode, b: RbNode, n: RbNode)
    requires v.Linked() && a in v.links && b in v.links && n in v.links
    ensures v.Rename(a, b).LinkedAt(n)
  {
    var m := Swap(a, b, n);
    assert v.LinkedAt(m);
    var w := v.Rename(a, b);
    assert w.links[n] == Cell(SwapN(a, b, v.links[m].l), SwapN(a, b, v.links[m].r),
                              SwapN(a, b, v.links[m].p), v.links[m].black);
    assert w.order[w.pos[n].idx] == n;
    assert w.ParentOk(n, w.links[n].p);
  }

  lemma RenameLinked(v: View, a: RbNode, b: RbNode)
    requires v.Linked() && a in v.links && b in v.links
    ensures v.Rename(a, b).Linked()
  {
    var w := v.Rename(a, b);
    forall n | n in w.links
      ensures w.LinkedAt(n)
    {
      RenameAt(v, a, b, n);
    }
    forall i | 0 <= i < |w.order|
      ensures w.OrderAt(i)
    {
      assert v.OrderAt(i);
    }
  }

  ghost predicate SoleChild(L: Links, x: RbNode, sc: RbNode?) {
    x in L && ((L[x].l == sc && L[x].r == null) || (L[x].l == null && L[x].r == sc))
  }

  lemma WithoutSpan(v: View, x: RbNode, n: RbNode)
    requires v.LinkedAt(x) && v.LinkedAt(n) && n != x
    ensures var k := v.pos[x].idx;
      && v.pos[n].idx != k
      && View(v.links, v.root, v.order[..k] + v.order[k + 1..], v.pos).SpanOk(n, Close(v.pos[n], k))
  {
  }

  lemma WithoutParent(v: View, x: RbNode, sc: RbNode?, n: RbNode)
    requires v.Linked() && SoleChild(v.links, x, sc) && n in v.links && n != x
    ensures v.LinkedAt(x) && v.Without(x, sc).ParentOk(n, v.Without(x, sc).links[n].p)
  {
    assert v.LinkedAt(x) && v.LinkedAt(n);
    if sc != null { assert v.LinkedAt(sc); }
  }

  lemma WithoutChild(v: View, x: RbNode, sc: RbNode?, n: RbNode)
    requires v.Linked() && SoleChild(v.links, x, sc) && n in v.links && n != x
    ensures v.LinkedAt(x)
    ensures var w := v.Without(x, sc);
      && w.ChildOk(w.links[n].l, n, w.pos[n].lo, w.pos[n].idx)
      && w.ChildOk(w.links[n].r, n, w.pos[n].idx + 1, w.pos[n].hi)
  {
    assert v.LinkedAt(x) && v.LinkedAt(n);
    WithoutSpan(v, x, n);
    if sc != null { assert v.LinkedAt(sc); }
  }

  lemma WithoutAt(v: View, x: RbNode, sc: RbNode?, n: RbNode)
    requires v.Linked() && SoleChild(v.links, x, sc) && n in v.links && n != x
    ensures v.LinkedAt(x) && v.Without(x, sc).LinkedAt(n)
  {
    assert v.LinkedAt(x) && v.LinkedAt(n);
    WithoutSpan(v, x, n);
    WithoutChild(v, x, sc, n);
    WithoutParent(v, x, sc, n);
  }

  lemma WithoutLinked(v: View, x: RbNode, sc: RbNode?)
    requires v.Linked() && SoleChild(v.links, x, sc)
    ensures v.LinkedAt(x) && v.Without(x, sc).Linked()
  {
    assert v.LinkedAt(x);
    var w := v.Without(x, sc);
    forall n | n in w.links
      ensures w.LinkedAt(n)
    {
      WithoutAt(v, x, sc, n);
    }
    WithoutOrder(v, x, sc);
    WithoutRoot(v, x, sc);
  }

  lemma WithoutOrder(v: View, x: RbNode, sc: RbNode?)
    requires v.Linked() && SoleChild(v.links, x, sc)
    ensures v.LinkedAt(x)
    ensures var w := v.Without(x, sc); forall i {:trigger w.OrderAt(i)} :: 0 <= i < |w.order| ==> w.OrderAt(i)
  {
    assert v.LinkedAt(x);
    var w, k := v.Without(x, sc), v.pos[x].idx;
    assert v.OrderAt(k);
    forall i | 0 <= i < |w.order|
      ensures w.OrderAt(i)
    {
      var j := if i < k then i else i + 1;
      assert v.OrderAt(j) && w.order[i] == v.order[j];
    }
  }

  lemma WithoutRoot(v: View, x: RbNode, sc: RbNode?)
    requires v.Linked() && SoleChild(v.links, x, sc)
    ensures v.LinkedAt(x)
    ensures var w := v.Without(x, sc);
      && w.links.Keys == w.pos.Keys && (w.root == null <==> w.order == [])
      && (w.root != null ==>
            && w.root in w.links && w.links[w.root].p == null
            && w.pos[w.root].lo == 0 && w.pos[w.root].hi == |w.order|)
  {
    assert v.LinkedAt(x) && v.LinkedAt(v.root) && v.OrderAt(v.pos[x].idx);
    if sc != null { assert v.LinkedAt(sc); }
  }

  ghost predicate FreeSlot(L: Links, n: RbNode, hot: RbNode, left: bool) {
    n !in L && hot in L && (if left then L[hot].l == null else L[hot].r == null)
  }

  lemma WithChildren(v: View, n: RbNode, hot: RbNode, left: bool, m: RbNode)
    requires v.Linked() && FreeSlot(v.links, n, hot, left) && m in v.links
    ensures v.LinkedAt(hot)
    ensures var w := v.With(n, hot, left);
      && w.ChildOk(w.links[m].l, m, w.pos[m].lo, w.pos[m].idx)
      && w.ChildOk(w.links[m].r, m, w.pos[m].idx + 1, w.pos[m].hi)
  {
    assert v.LinkedAt(hot) && v.LinkedAt(m);
  }

  lemma WithAt(v: View, n: RbNode, hot: RbNode, left: bool, m: RbNode)
    requires v.Linked() && FreeSlot(v.links, n, hot, left) && m in v.links
    ensures v.LinkedAt(hot) && v.With(n, hot, left).LinkedAt(m)
  {
    assert v.LinkedAt(hot) && v.LinkedAt(m);
    WithChildren(v, n, hot, left, m);
    var w := v.With(n, hot, left);
    assert w.order[w.pos[m].idx] == m;
  }

  lemma WithLinked(v: View, n: RbNode, hot: RbNode, left: bool)
    requires v.Linked() && FreeSlot(v.links, n, hot, left)
    ensures v.LinkedAt(hot) && v.With(n, hot, left).Linked()
  {
    assert v.LinkedAt(hot);
    var w := v.With(n, hot, left);
    forall m | m in w.links
      ensures w.LinkedAt(m)
    {
      if m != n { WithAt(v, n, hot, left, m); }
    }
    WithOrder(v, n, hot, left);
    assert v.LinkedAt(v.root);
  }

  lemma WithOrder(v: View, n: RbNode, hot: RbNode, left: bool)
    requires v.Linked() && FreeSlot(v.links, n, hot, left)
    ensures v.LinkedAt(hot)
    ensures var w := v.With(n, hot, left); forall i {:trigger w.OrderAt(i)} :: 0 <= i < |w.order| ==> w.OrderAt(i)
  {
    assert v.LinkedAt(hot);
    var w, k := v.With(n, hot, left), v.Slot(hot, left);
    forall i | 0 <= i < |w.order|
      ensures w.OrderAt(i)
    {
      if i < k { assert v.OrderAt(i); }
      if i > k { assert v.OrderAt(i - 1) && w.order[i] == v.order[i - 1]; }
    }
  }

  lemma MirrorAt(v: View, n: RbNode)
    requires v.Linked() && n in v.links
    ensures v.Mirror().LinkedAt(n)
  {
    assert v.LinkedAt(n);
    var c, w := v.links[n], v.Mirror();
    assert w.SpanOk(n, w.pos[n]) && w.ParentOk(n, c.p);
  }

  lemma MirrorLinked(v: View)
    requires v.Linked()
    ensures v.Mirror().Linked()
  {
    var w := v.Mirror();
    assert w.links.Keys == v.links.Keys && w.pos.Keys == v.pos.Keys;
    forall n | n in w.links
      ensures w.LinkedAt(n)
    {
      MirrorAt(v, n);
    }
    forall i | 0 <= i < |w.order|
      ensures w.OrderAt(i)
    {
      var j := |v.order| - 1 - i;
      assert v.OrderAt(j) && w.order[i] == v.order[j];
    }
  }

  ghost predicate Tiltable(v: View, node: RbNode) {
    v.Linked() && node in v.links && v.links[node].r != null && v.LinkedAt(node)
  }

  lemma RotateLeftSpan(v: View, node: RbNode, m: RbNode)
    requires Tiltable(v, node) && m in v.links
    ensures v.RotateLeft(node).SpanOk(m, v.RotateLeft(node).pos[m])
  {
    assert v.LinkedAt(m) && v.LinkedAt(v.links[node].r);
  }

  lemma RotateLeftParent(v: View, node: RbNode, m: RbNode)
    requires Tiltable(v, node) && m in v.links
    ensures v.RotateLeft(node).ParentOk(m, v.RotateLeft(node).links[m].p)
  {
    assert v.LinkedAt(node) && v.LinkedAt(m);
    assert v.LinkedAt(v.links[node].r);
  }

  lemma RotateLeftChildren(v: View, node: RbNode, m: RbNode)
    requires Tiltable(v, node) && m in v.links
    ensures var w := v.RotateLeft(node);
      && w.ChildOk(w.links[m].l, m, w.pos[m].lo, w.pos[m].idx)
      && w.ChildOk(w.links[m].r, m, w.pos[m].idx + 1, w.pos[m].hi)
  {
    assert v.LinkedAt(node) && v.LinkedAt(m);
    assert v.LinkedAt(v.links[node].r);
  }

  lemma RotateLeftAt(v: View, node: RbNode, m: RbNode)
    requires Tiltable(v, node) && m in v.links
    ensures v.RotateLeft(node).LinkedAt(m)
  {
    RotateLeftSpan(v, node, m);
    RotateLeftParent(v, node, m);
    RotateLeftChildren(v, node, m);
  }

  lemma RotateLeftLinked(v: View, node: RbNode)
    requires v.Linked() && node in v.links && v.links[node].r != null
    ensures v.LinkedAt(node) && v.RotateLeft(node).Linked()
  {
    assert v.LinkedAt(node);
    var w := v.RotateLeft(node);
    forall m | m in w.links
      ensures w.LinkedAt(m)
    {
      RotateLeftAt(v, node, m);
    }
    RotateLeftOrder(v, node);
  }

  lemma RotateLeftOrder(v: View, node: RbNode)
    requires Tiltable(v, node)
    ensures var w := v.RotateLeft(node);
      && w.links.Keys == w.pos.Keys && w.order == v.order
      && (forall i {:trigger w.OrderAt(i)} :: 0 <= i < |w.order| ==> w.OrderAt(i))
      && w.root != null && w.root in w.links && w.links[w.root].p == null
      && w.pos[w.root].lo == 0 && w.pos[w.root].hi == |w.order|
  {
    var w := v.RotateLeft(node);
    assert v.LinkedAt(v.links[node].r);
    forall i | 0 <= i < |w.order|
      ensures w.OrderAt(i)
    {
      assert v.OrderAt(i);
    }
  }

  lemma MirrorTilted(v: View, node: RbNode, lc: RbNode)
    requires v.LinkedAt(node) && v.LinkedAt(lc) && v.links[node].l == lc && node != lc
    ensures v.Mirror().RotateLeft(node).Mirror().pos == TiltedRight(v.pos, node, lc)
  {
  }

  lemma MirrorOrder(v: View, w: View)
    requires w.order == v.Mirror().order
    ensures w.Mirror().order == v.order
  {
  }

  lemma RotateRightIsMirror(v: View, node: RbNode)
    requires v.Linked() && node in v.links && v.links[node].l != null
    ensures v.LinkedAt(node) && v.LinkedAt(v.links[node].l)
    ensures v.RotateRight(node) == v.Mirror().RotateLeft(node).Mirror()
  {
    assert v.LinkedAt(node);
    var lc := v.links[node].l;
    assert v.LinkedAt(lc);
    var w := v.Mirror().RotateLeft(node);
    MirrorTilted(v, node, lc);
    MirrorRotated(v.links, node, lc);
    MirrorOrder(v, w);
    assert w.Mirror().links == v.RotateRight(node).links;
  }

  lemma RotateRightLinked(v: View, node: RbNode)
    requires v.Linked() && node in v.links && v.links[node].l != null
    ensures v.LinkedAt(node) && v.LinkedAt(v.links[node].l) && v.RotateRight(node).Linked()
  {
    RotateRightIsMirror(v, node);
    MirrorLinked(v);
    RotateLeftLinked(v.Mirror(), node);
    MirrorLinked(v.Mirror().RotateLeft(node));
  }

  // A parent's span strictly contains its child's.
  lemma Nested(v: View, n: RbNode)
    requires v.Linked() && n in v.links && v.links[n].p != null
    ensures var p := v.links[n].p;
      && p in v.links && n in v.pos && p in v.pos && n != p
      && v.pos[p].lo <= v.pos[n].lo <= v.pos[n].idx < v.pos[n].hi <= v.pos[p].hi <= |v.order|
      && 0 <= v.pos[p].lo && v.pos[n].hi - v.pos[n].lo < v.pos[p].hi - v.pos[p].lo
      && (if n == v.links[p].l then v.pos[n].hi == v.pos[p].idx
          else n == v.links[p].r && v.pos[n].lo == v.pos[p].idx + 1)
  {
    assert v.LinkedAt(n);
    assert v.LinkedAt(v.links[n].p);
  }

  lemma PaintedLinked(v: View, n: RbNode, black: bool)
    requires v.Linked() && n in v.links
    ensures v.(links := Painted(v.links, n, black)).Linked()
  {
    var w := v.(links := Painted(v.links, n, black));
    forall m | m in w.links
      ensures w.LinkedAt(m)
    {
      assert v.LinkedAt(m);
    }
    forall i | 0 <= i < |w.order|
      ensures w.OrderAt(i)
    {
      assert v.OrderAt(i);
    }
  }
}
