// Red-black trees as textbooks define them, on inductive trees, and their
// agreement with the invariant that the operations of src/rbtree.c are proved to keep.
module RbReference {
  import opened Arith
  import opened Lists
  import opened RbShape
  import opened RbBalance
  import opened RbSteps

  datatype Ref = Leaf | Branch(left: Ref, node: RbNode, black: bool, right: Ref)

  ghost function InOrder(t: Ref): seq<RbNode> {
    match t case Leaf => [] case Branch(l, n, _, r) => InOrder(l) + [n] + InOrder(r)
  }

  ghost function Height(t: Ref): nat {
    match t
    case Leaf => 0
    case Branch(l, _, _, r) => 1 + if Height(l) >= Height(r) then Height(l) else Height(r)
  }

  // The number of black nodes on the leftmost path.
  ghost function Blacks(t: Ref): nat {
    match t case Leaf => 0 case Branch(l, _, b, _) => Blacks(l) + if b then 1 else 0
  }

  ghost predicate RootBlack(t: Ref) {
    t.Leaf? || t.black
  }

  // No red node has a red child, and every path holds equally many black nodes.
  ghost predicate Balanced(t: Ref) {
    match t
    case Leaf => true
    case Branch(l, _, b, r) =>
      Balanced(l) && Balanced(r) && Blacks(l) == Blacks(r) && (b || (RootBlack(l) && RootBlack(r)))
  }

  // The links below n, whose parent link leads to up, spell out the tree t.
  ghost predicate Spells(L: Links, n: RbNode?, up: RbNode?, t: Ref)
    decreases t
  {
    match t
    case Leaf => n == null
    case Branch(l, m, b, r) =>
      n == m && m in L && L[m].black == b && L[m].p == up && Spells(L, L[m].l, m, l) && Spells(L, L[m].r, m, r)
  }

  // The definition, with the links of one tree.
  ghost predicate Textbook(L: Links, root: RbNode?, order: seq<RbNode>, t: Ref) {
    && Spells(L, root, null, t) && InOrder(t) == order && Balanced(t) && RootBlack(t)
    && Distinct(order) && L.Keys == set n | n in order
  }

  // --- From the invariant to the definition -------------------------------------------

  ghost function Size(v: View, n: RbNode?): int {
    if n != null && n in v.pos then 1 + v.pos[n].hi - v.pos[n].lo else 0
  }

  // The tree below n.
  lemma {:induction false} ReadOff(v: View, bh: Heights, n: RbNode?, up: RbNode?, lo: int, hi: int) returns (t: Ref)
    requires v.Linked() && Good(v.links, bh, null, null, null)
    requires if n == null then 0 <= lo == hi <= |v.order| else
      n in v.links && n in v.pos && v.links[n].p == up && v.pos[n].lo == lo && v.pos[n].hi == hi
    ensures Spells(v.links, n, up, t) && 0 <= lo <= hi <= |v.order| && InOrder(t) == v.order[lo..hi]
    ensures Balanced(t) && Blacks(t) == H(bh, n) && (RootBlack(t) <==> Black(v.links, n))
    decreases Size(v, n)
  {
    if n == null {
      t := Leaf;
    } else {
      assert v.LinkedAt(n) && GoodAt(v.links, bh, null, null, n);
      var c, s := v.links[n], v.pos[n];
      var l := ReadOff(v, bh, c.l, n, s.lo, s.idx);
      var r := ReadOff(v, bh, c.r, n, s.idx + 1, s.hi);
      t := Branch(l, n, c.black, r);
      Topped(v, bh, n, l, r);
    }
  }

  // Two trees that spell what lies below a node make one that spells it as well.
  lemma Topped(v: View, bh: Heights, n: RbNode, l: Ref, r: Ref)
    requires v.LinkedAt(n) && GoodAt(v.links, bh, null, null, n) && Balanced(l) && Balanced(r)
    requires Spells(v.links, v.links[n].l, n, l) && Spells(v.links, v.links[n].r, n, r)
    requires Blacks(l) == H(bh, v.links[n].l) && (RootBlack(l) <==> Black(v.links, v.links[n].l))
    requires Blacks(r) == H(bh, v.links[n].r) && (RootBlack(r) <==> Black(v.links, v.links[n].r))
    requires InOrder(l) == v.order[v.pos[n].lo..v.pos[n].idx] && InOrder(r) == v.order[v.pos[n].idx + 1..v.pos[n].hi]
    ensures var t := Branch(l, n, v.links[n].black, r);
      && Spells(v.links, n, v.links[n].p, t) && InOrder(t) == v.order[v.pos[n].lo..v.pos[n].hi]
      && Balanced(t) && Blacks(t) == H(bh, n) && (RootBlack(t) <==> Black(v.links, n))
  {
    Piece(v.order, v.pos[n].lo, v.pos[n].idx, v.pos[n].hi);
  }

  lemma Piece(s: seq<RbNode>, lo: int, i: int, hi: int)
    requires 0 <= lo <= i < hi <= |s|
    ensures s[lo..hi] == s[lo..i] + [s[i]] + s[i + 1..hi]
  {
  }

  lemma RedBlackIsTextbook(v: View, bh: Heights) returns (t: Ref)
    requires RedBlack(v, bh)
    ensures Textbook(v.links, v.root, v.order, t)
  {
    t := ReadOff(v, bh, v.root, null, 0, |v.order|);
    assert v.order[0..|v.order|] == v.order;
    EachNodeOnce(v);
  }

  lemma EachNodeOnce(v: View)
    requires v.Linked()
    ensures Distinct(v.order) && v.links.Keys == set n | n in v.order
  {
    PlacesHaveNodes(v);
    NodesHavePlaces(v);
  }

  // --- From the definition to the invariant --------------------------------------------

  // The span of n, and the black nodes below it, in a tree that starts at lo.
  ghost function SpanIn(t: Ref, lo: int, n: RbNode): Span {
    match t
    case Leaf => Span(lo, lo, lo)
    case Branch(l, m, _, r) =>
      var i := lo + |InOrder(l)|;
      if n == m then Span(lo, i, i + 1 + |InOrder(r)|)
      else if n in InOrder(l) then SpanIn(l, lo, n)
      else SpanIn(r, i + 1, n)
  }

  ghost function BlacksIn(t: Ref, n: RbNode): int {
    match t
    case Leaf => 0
    case Branch(l, m, _, r) =>
      if n == m then Blacks(t) else if n in InOrder(l) then BlacksIn(l, n) else BlacksIn(r, n)
  }

  // The maps of the whole tree agree with what the subtree t says of n.
  ghost predicate CoversAt(pos: map<RbNode, Span>, bh: Heights, t: Ref, lo: int, n: RbNode) {
    n in pos && n in bh && pos[n] == SpanIn(t, lo, n) && bh[n] == BlacksIn(t, n)
  }

  ghost predicate Covers(pos: map<RbNode, Span>, bh: Heights, t: Ref, lo: int) {
    forall n {:trigger CoversAt(pos, bh, t, lo, n)} :: n in InOrder(t) ==> CoversAt(pos, bh, t, lo, n)
  }

  lemma DistinctParts(l: seq<RbNode>, n: RbNode, r: seq<RbNode>)
    requires Distinct(l + [n] + r)
    ensures Distinct(l) && Distinct(r) && n !in l && n !in r && forall m :: m in l ==> m !in r
  {
    var s := l + [n] + r;
    assert s[|l|] == n;
    assert forall i :: 0 <= i < |l| ==> s[i] == l[i];
    forall i | 0 <= i < |r|
      ensures s[|l| + 1 + i] == r[i] && r[i] != n && r[i] !in l
    {
    }
  }

  lemma CoversParts(pos: map<RbNode, Span>, bh: Heights, t: Ref, lo: int)
    requires t.Branch? && Covers(pos, bh, t, lo) && Distinct(InOrder(t))
    ensures Covers(pos, bh, t.left, lo) && Covers(pos, bh, t.right, lo + |InOrder(t.left)| + 1)
    ensures Distinct(InOrder(t.left)) && Distinct(InOrder(t.right))
  {
    DistinctParts(InOrder(t.left), t.node, InOrder(t.right));
    forall n | n in InOrder(t.left)
      ensures CoversAt(pos, bh, t.left, lo, n)
    {
      CoversPart(pos, bh, t, lo, n);
    }
    forall n | n in InOrder(t.right)
      ensures CoversAt(pos, bh, t.right, lo + |InOrder(t.left)| + 1, n)
    {
      CoversPart(pos, bh, t, lo, n);
    }
  }

  lemma CoversPart(pos: map<RbNode, Span>, bh: Heights, t: Ref, lo: int, n: RbNode)
    requires t.Branch? && Covers(pos, bh, t, lo) && Distinct(InOrder(t))
    ensures n in InOrder(t.left) ==> CoversAt(pos, bh, t.left, lo, n)
    ensures n in InOrder(t.right) ==> CoversAt(pos, bh, t.right, lo + |InOrder(t.left)| + 1, n)
  {
    DistinctParts(InOrder(t.left), t.node, InOrder(t.right));
    if n in InOrder(t.left) || n in InOrder(t.right) { assert CoversAt(pos, bh, t, lo, n); }
  }

  // The subtree t takes up the places from lo on.
  ghost predicate Lies(v: View, t: Ref, lo: int) {
    0 <= lo <= lo + |InOrder(t)| <= |v.order| && v.order[lo..lo + |InOrder(t)|] == InOrder(t)
  }

  lemma LiesParts(v: View, t: Ref, lo: int)
    requires t.Branch? && Lies(v, t, lo)
    ensures Lies(v, t.left, lo) && Lies(v, t.right, lo + |InOrder(t.left)| + 1)
    ensures v.order[lo + |InOrder(t.left)|] == t.node
  {
    var l, s := InOrder(t.left), v.order[lo..lo + |InOrder(t)|];
    assert s[..|l|] == l && s[|l|] == t.node && s[|l| + 1..] == InOrder(t.right);
  }

  // The subtree t hangs below up, from place lo on, and is balanced.
  ghost predicate Placed(v: View, bh: Heights, t: Ref, n: RbNode?, up: RbNode?, lo: int) {
    && Spells(v.links, n, up, t) && Covers(v.pos, bh, t, lo) && Distinct(InOrder(t)) && Balanced(t)
    && Lies(v, t, lo) && (n != null ==> v.ParentOk(n, up))
  }

  lemma PlacedParts(v: View, bh: Heights, t: Ref, n: RbNode?, up: RbNode?, lo: int)
    requires t.Branch? && Placed(v, bh, t, n, up, lo)
    ensures n == t.node && n in v.links
    ensures Placed(v, bh, t.left, v.links[n].l, n, lo)
    ensures Placed(v, bh, t.right, v.links[n].r, n, lo + |InOrder(t.left)| + 1)
  {
    CoversParts(v.pos, bh, t, lo);
    LiesParts(v, t, lo);
    TopSpan(v, bh, t.left, v.links[n].l, n, lo);
    TopSpan(v, bh, t.right, v.links[n].r, n, lo + |InOrder(t.left)| + 1);
    assert CoversAt(v.pos, bh, t, lo, n);
  }

  // The top of a subtree is linked and balanced.
  lemma TopNode(v: View, bh: Heights, t: Ref, n: RbNode, up: RbNode?, lo: int)
    requires t.Branch? && Placed(v, bh, t, n, up, lo)
    ensures v.LinkedAt(n) && GoodAt(v.links, bh, null, null, n)
  {
    CoversParts(v.pos, bh, t, lo);
    LiesParts(v, t, lo);
    TopSpan(v, bh, t.left, v.links[n].l, n, lo);
    TopSpan(v, bh, t.right, v.links[n].r, n, lo + |InOrder(t.left)| + 1);
    assert CoversAt(v.pos, bh, t, lo, n);
  }

  lemma {:induction false} EveryNode(v: View, bh: Heights, t: Ref, n: RbNode?, up: RbNode?, lo: int, m: RbNode)
    requires Placed(v, bh, t, n, up, lo) && m in InOrder(t)
    ensures v.LinkedAt(m) && GoodAt(v.links, bh, null, null, m)
  {
    TopNode(v, bh, t, t.node, up, lo);
    PlacedParts(v, bh, t, n, up, lo);
    if m in InOrder(t.left) {
      EveryNode(v, bh, t.left, v.links[n].l, n, lo, m);
    } else if m in InOrder(t.right) {
      EveryNode(v, bh, t.right, v.links[n].r, n, lo + |InOrder(t.left)| + 1, m);
    }
  }

  lemma TopSpan(v: View, bh: Heights, t: Ref, n: RbNode?, up: RbNode?, lo: int)
    requires Spells(v.links, n, up, t) && Covers(v.pos, bh, t, lo)
    ensures n == null <==> t.Leaf?
    ensures n != null ==> n in v.links && n in v.pos && v.links[n].p == up
    ensures n != null ==> v.pos[n].lo == lo && v.pos[n].hi == lo + |InOrder(t)|
    ensures H(bh, n) == Blacks(t) && (Black(v.links, n) <==> RootBlack(t))
  {
    if t.Branch? {
      assert t.node in InOrder(t) && CoversAt(v.pos, bh, t, lo, t.node);
    }
  }

  lemma PlaceOf(v: View, i: int)
    requires Distinct(v.order) && 0 <= i < |v.order| && v.LinkedAt(v.order[i])
    ensures v.OrderAt(i)
  {
    var j := v.pos[v.order[i]].idx;
    assert v.order[j] == v.order[i];
  }

  lemma AllPlaces(v: View)
    requires Distinct(v.order) && v.links.Keys == set n | n in v.order
    requires forall n {:trigger v.LinkedAt(n)} :: n in v.links ==> v.LinkedAt(n)
    ensures forall i {:trigger v.OrderAt(i)} :: 0 <= i < |v.order| ==> v.OrderAt(i)
  {
    forall i | 0 <= i < |v.order|
      ensures v.OrderAt(i)
    {
      assert v.order[i] in v.links;
      assert v.LinkedAt(v.order[i]);
      PlaceOf(v, i);
    }
  }

  lemma CoversWhole(order: seq<RbNode>, t: Ref)
    requires InOrder(t) == order
    ensures Covers(map n | n in order :: SpanIn(t, 0, n), map n | n in order :: BlacksIn(t, n), t, 0)
  {
  }

  lemma AllNodes(v: View, bh: Heights, t: Ref)
    requires Textbook(v.links, v.root, v.order, t) && Covers(v.pos, bh, t, 0)
    ensures forall n {:trigger v.LinkedAt(n)} :: n in v.links ==> v.LinkedAt(n)
    ensures forall n {:trigger GoodAt(v.links, bh, null, null, n)} ::
      n in v.links ==> GoodAt(v.links, bh, null, null, n)
  {
    assert v.order[0..|v.order|] == v.order;
    forall n | n in v.links
      ensures v.LinkedAt(n) && GoodAt(v.links, bh, null, null, n)
    {
      EveryNode(v, bh, t, v.root, null, 0, n);
    }
  }

  lemma AssembleLinks(v: View, bh: Heights, t: Ref)
    requires Textbook(v.links, v.root, v.order, t) && Covers(v.pos, bh, t, 0) && v.pos.Keys == v.links.Keys
    requires forall n {:trigger v.LinkedAt(n)} :: n in v.links ==> v.LinkedAt(n)
    ensures v.Linked()
  {
    TopSpan(v, bh, t, v.root, null, 0);
    AllPlaces(v);
  }

  lemma Assemble(v: View, bh: Heights, t: Ref)
    requires Textbook(v.links, v.root, v.order, t) && Covers(v.pos, bh, t, 0)
    requires v.pos.Keys == bh.Keys == v.links.Keys
    ensures RedBlack(v, bh)
  {
    AllNodes(v, bh, t);
    AssembleLinks(v, bh, t);
  }

  // Whatever a textbook calls a red-black tree meets the invariant.
  lemma TextbookIsRedBlack(L: Links, root: RbNode?, order: seq<RbNode>, t: Ref) returns (v: View, bh: Heights)
    requires Textbook(L, root, order, t)
    ensures RedBlack(v, bh) && v.links == L && v.root == root && v.order == order
  {
    var pos := map n | n in order :: SpanIn(t, 0, n);
    bh := map n | n in order :: BlacksIn(t, n);
    v := View(L, root, order, pos);
    CoversWhole(order, t);
    Assemble(v, bh, t);
  }

  // --- Height -----------------------------------------------------------------------------

  // A red-black tree of height h and b blacks on a path: h <= 2b, one more below a red root.
  lemma {:induction false} HeightByBlacks(t: Ref)
    requires Balanced(t)
    ensures Height(t) <= 2 * Blacks(t) + (if RootBlack(t) then 0 else 1)
    ensures Pow2(Blacks(t)) <= |InOrder(t)| + 1
  {
    if t.Branch? {
      HeightByBlacks(t.left);
      HeightByBlacks(t.right);
    }
  }

  lemma HeightIsLogarithmic(L: Links, root: RbNode?, order: seq<RbNode>, t: Ref)
    requires Textbook(L, root, order, t)
    ensures Height(t) <= 2 * Log2(|order| + 1)
  {
    HeightByBlacks(t);
    var k := Log2(|order| + 1);
    if Blacks(t) > k {
      Pow2Grows(k, Blacks(t));
    }
  }
}
