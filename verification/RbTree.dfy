// The intrusive red-black tree (src/rbtree.c).
module RbTree {
  import opened RbShape
  import opened RbBalance
  import opened RbSteps
  import opened RbKeys
  import opened RbErase
  import opened Arith

  // The comparator a tree is given: the default one compares keys, the one of
  // the section tree asks whether an address lies in [key, addrEnd).
  datatype Order = DefaultOrder | SectionOrder

  class Tree {
    var root: RbNode?
    var size: int
    const order: Order
    ghost var Nodes: set<RbNode>
    ghost var links: Links              // what the nodes hold, kept by Synced
    ghost var ranges: Ranges            // the keys they answer to
    ghost var Seq: seq<RbNode>          // the nodes in order
    ghost var pos: map<RbNode, Span>
    ghost var bh: Heights

    // rb_init
    constructor (order: Order)
      ensures Valid() && Nodes == {} && Seq == [] && this.order == order
    {
      root, size := null, 0;
      this.order := order;
      Nodes, links, ranges, Seq, pos, bh := {}, map[], map[], [], map[], map[];
    }

    // _compare_key: _def_order_func, or _shmm_comp_func of the section tree.
    function Compare(key: int, n: RbNode): int
      reads n`key, n`addrEnd
    {
      match order
      case DefaultOrder => if key < n.key then -1 else if key > n.key then 1 else 0
      case SectionOrder => if key < n.key then -1 else if key >= n.addrEnd then 1 else 0
    }

    // The key of a node, or the section from key up to addrEnd, against the key looked for.
    lemma CompareDecides(key: int, n: RbNode)
      ensures order.DefaultOrder? ==>
        && (Compare(key, n) == 0 <==> key == n.key)
        && (Compare(key, n) < 0 <==> key < n.key) && (Compare(key, n) > 0 <==> n.key < key)
      ensures order.SectionOrder? ==>
        && (Compare(key, n) == 0 <==> n.key <= key < n.addrEnd)
        && (Compare(key, n) < 0 <==> key < n.key) && (Compare(key, n) > 0 <==> n.key <= key && n.addrEnd <= key)
    {
    }

    ghost function RangeOf(n: RbNode): Range
      reads n`key, n`addrEnd
    {
      match order
      case DefaultOrder => Range(n.key, n.key + 1)
      case SectionOrder => Range(n.key, n.addrEnd)
    }

    ghost predicate SyncedAt(n: RbNode)
      reads this`links, this`ranges, n
    {
      && n in links && links[n] == Cell(n.lchild, n.rchild, n.p, n.isblack)
      && n in ranges && ranges[n] == RangeOf(n)
    }

    ghost predicate Synced()
      reads this`links, this`ranges, this`Nodes, Nodes
    {
      && links.Keys == Nodes
      && forall n {:trigger SyncedAt(n)} :: n in Nodes ==> SyncedAt(n)
    }

    ghost function Shape(): View
      reads this
    {
      View(links, root, Seq, pos)
    }

    // --- Field writes ------------------------------------------------------

    method SetParent(n: RbNode, q: RbNode?)
      requires Synced() && n in Nodes
      modifies this`links, n`p
      ensures n.p == q
      ensures Synced() && links == old(links)[n := old(links[n]).(p := q)]
    {
      assert SyncedAt(n);
      n.p := q;
      links := links[n := links[n].(p := q)];
      forall m | m in Nodes
        ensures SyncedAt(m)
      {
        assert old(SyncedAt(m));
      }
    }

    method SetLeft(n: RbNode, q: RbNode?)
      requires Synced() && n in Nodes
      modifies this`links, n`lchild
      ensures n.lchild == q
      ensures Synced() && links == old(links)[n := old(links[n]).(l := q)]
    {
      assert SyncedAt(n);
      n.lchild := q;
      links := links[n := links[n].(l := q)];
      forall m | m in Nodes
        ensures SyncedAt(m)
      {
        assert old(SyncedAt(m));
      }
    }

    method SetRight(n: RbNode, q: RbNode?)
      requires Synced() && n in Nodes
      modifies this`links, n`rchild
      ensures n.rchild == q
      ensures Synced() && links == old(links)[n := old(links[n]).(r := q)]
    {
      assert SyncedAt(n);
      n.rchild := q;
      links := links[n := links[n].(r := q)];
      forall m | m in Nodes
        ensures SyncedAt(m)
      {
        assert old(SyncedAt(m));
      }
    }

    // set_black and set_red of a node that is there.
    method SetColor(n: RbNode, black: bool)
      requires Synced() && n in Nodes
      modifies this`links, n`isblack
      ensures n.isblack == black
      ensures Synced() && links == Painted(old(links), n, black)
    {
      assert SyncedAt(n);
      n.isblack := black;
      links := links[n := links[n].(black := black)];
      forall m | m in Nodes
        ensures SyncedAt(m)
      {
        assert old(SyncedAt(m));
      }
    }

    // --- Rotations -------------------------------------------------------

    // Put to where from stands under from's parent q.
    method TakePlace(from: RbNode, to: RbNode, q: RbNode?)
      requires Synced() && to in Nodes && from in Nodes && (q != null ==> q in Nodes && q != to)
      modifies this`links, Nodes`lchild, Nodes`rchild, Nodes`p
      ensures Synced() && links == ReplaceChild(old(links)[to := old(links[to]).(p := q)], q, from, to)
    {
      SetParent(to, q);
      if q != null {
        assert SyncedAt(q);
        if from == q.lchild {
          SetLeft(q, to);
        } else {
          SetRight(q, to);
        }
      }
    }

    // The right child rc of node takes node as its left child.
    method TiltLeft(node: RbNode, rc: RbNode)
      requires Synced() && node in Nodes && rc in Nodes && node != rc && links[rc].l != node && links[rc].l != rc
      requires links[rc].l != null ==> links[rc].l in Nodes
      modifies this`links, Nodes`lchild, Nodes`rchild, Nodes`p
      ensures Synced()
      ensures links == Adopt(old(links), old(links[rc].l), node)
                       [node := old(links[node]).(p := rc, r := old(links[rc].l))]
                       [rc := old(links[rc]).(l := node)]
    {
      assert SyncedAt(rc);
      SetParent(node, rc);
      if rc.lchild != null {
        SetParent(rc.lchild, node);
      }
      SetRight(node, rc.lchild);
      SetLeft(rc, node);
    }

    // _left_rotate.
    method LeftRotate(node: RbNode)
      requires Synced() && Rotatable(links, node)
      modifies this`root, this`links, Nodes`lchild, Nodes`rchild, Nodes`p
      ensures Synced()
      ensures old(links[node].r) == null ==> links == old(links) && root == old(root)
      ensures old(links[node].r) != null ==>
                && old(links[node].r) in old(links)
                && links == Rotated(old(links), node, old(links[node].r))
                && root == (if old(links[node].p) == null then old(links[node].r) else old(root))
    {
      ghost var L := links;
      assert SyncedAt(node);
      var rc := node.rchild;
      if rc == null {
        return;
      }
      assert KinAt(L, rc);
      var nodeP := node.p;
      TakePlace(node, rc, nodeP);
      ghost var L1 := links;
      TiltLeft(node, rc);
      RotationWrites(L, node, rc, L1, links);
      if nodeP == null {
        root := rc;
      }
    }

    // The left child lc of node takes node as its right child.
    method TiltRight(node: RbNode, lc: RbNode)
      requires Synced() && node in Nodes && lc in Nodes && node != lc && links[lc].r != node && links[lc].r != lc
      requires links[lc].r != null ==> links[lc].r in Nodes
      modifies this`links, Nodes`lchild, Nodes`rchild, Nodes`p
      ensures Synced()
      ensures links == Adopt(old(links), old(links[lc].r), node)
                       [node := old(links[node]).(p := lc, l := old(links[lc].r))]
                       [lc := old(links[lc]).(r := node)]
    {
      assert SyncedAt(lc);
      SetParent(node, lc);
      if lc.rchild != null {
        SetParent(lc.rchild, node);
      }
      SetLeft(node, lc.rchild);
      SetRight(lc, node);
    }

    // _right_rotate.
    method RightRotate(node: RbNode)
      requires Synced() && RotatableRight(links, node)
      modifies this`root, this`links, Nodes`lchild, Nodes`rchild, Nodes`p
      ensures Synced()
      ensures old(links[node].l) == null ==> links == old(links) && root == old(root)
      ensures old(links[node].l) != null ==>
                && old(links[node].l) in old(links)
                && links == RotatedRight(old(links), node, old(links[node].l))
                && root == (if old(links[node].p) == null then old(links[node].l) else old(root))
    {
      ghost var L := links;
      assert SyncedAt(node);
      var lc := node.lchild;
      if lc == null {
        return;
      }
      assert KinAt(L, lc);
      var nodeP := node.p;
      TakePlace(node, lc, nodeP);
      ghost var L1 := links;
      TiltRight(node, lc);
      RightRotationWrites(L, node, lc, L1, links);
      if nodeP == null {
        root := lc;
      }
    }

    // --- A red child takes its black parent's place -------------------------

    // A red right child rc takes the place of its black parent n.
    method LiftLeft(n: RbNode, rc: RbNode)
      requires Synced() && Liftable(Shape(), n, rc)
      modifies this`root, this`links, this`pos, Nodes`lchild, Nodes`rchild, Nodes`p, Nodes`isblack
      ensures Synced() && Shape() == LiftedLeft(old(Shape()), n, rc)
    {
      SetColor(rc, true);
      SetColor(n, false);
      LeftRotate(n);
      pos := TiltedLeft(pos, n, rc);
    }

    // A red left child lc takes the place of its black parent n.
    method LiftRight(n: RbNode, lc: RbNode)
      requires Synced() && LiftableRight(Shape(), n, lc)
      modifies this`root, this`links, this`pos, Nodes`lchild, Nodes`rchild, Nodes`p, Nodes`isblack
      ensures Synced() && Shape() == LiftedRight(old(Shape()), n, lc)
    {
      SetColor(lc, true);
      SetColor(n, false);
      RightRotate(n);
      pos := TiltedRight(pos, n, lc);
    }

    // --- Insertion --------------------------------------------------------

    // Cases rr-2 of _fix_rr with the parent on the left: at most two rotations.
    method StraightenLeft(node: RbNode, p: RbNode, g: RbNode) returns (top: RbNode)
      requires Synced() && CornerLeft(Shape(), node, p, g)
      modifies this`root, this`links, this`pos, Nodes`lchild, Nodes`rchild, Nodes`p, Nodes`isblack
      ensures Synced() && Shape() == StraightLeft(old(Shape()), node, p, g) && top in Nodes
    {
      top := node;
      assert SyncedAt(p);
      if node == p.rchild {
        LeftRotate(p);
        pos := TiltedLeft(pos, p, node);
      } else {
        top := p;
      }
      LiftRight(g, top);
    }

    method StraightenStepLeft(node: RbNode, p: RbNode, g: RbNode) returns (top: RbNode)
      requires Synced() && DoubleRed(Shape(), bh, node) && Elders(Shape(), node, p, g)
      requires links[g].l == p && Black(links, links[g].r)
      modifies this`root, this`links, this`pos, this`bh, Nodes`lchild, Nodes`rchild, Nodes`p, Nodes`isblack
      ensures Synced() && SettledTree(Shape(), bh, Seq) && top in Nodes
    {
      StraightLeftKeeps(Shape(), bh, node, p, g);
      bh := RedUpHeights(bh, g, if links[p].r == node then node else p);
      top := StraightenLeft(node, p, g);
    }

    // Cases rr-2 of _fix_rr with the parent on the right: at most two rotations.
    method StraightenRight(node: RbNode, p: RbNode, g: RbNode) returns (top: RbNode)
      requires Synced() && CornerRight(Shape(), node, p, g)
      modifies this`root, this`links, this`pos, Nodes`lchild, Nodes`rchild, Nodes`p, Nodes`isblack
      ensures Synced() && Shape() == StraightRight(old(Shape()), node, p, g) && top in Nodes
    {
      top := node;
      assert SyncedAt(p);
      if node == p.lchild {
        RightRotate(p);
        pos := TiltedRight(pos, p, node);
      } else {
        top := p;
      }
      LiftLeft(g, top);
    }

    method StraightenStepRight(node: RbNode, p: RbNode, g: RbNode) returns (top: RbNode)
      requires Synced() && DoubleRed(Shape(), bh, node) && Elders(Shape(), node, p, g)
      requires links[g].r == p && Black(links, links[g].l)
      modifies this`root, this`links, this`pos, this`bh, Nodes`lchild, Nodes`rchild, Nodes`p, Nodes`isblack
      ensures Synced() && SettledTree(Shape(), bh, Seq) && top in Nodes
    {
      StraightRightKeeps(Shape(), bh, node, p, g);
      bh := RedUpHeights(bh, g, if links[p].l == node then node else p);
      top := StraightenRight(node, p, g);
    }

    // Case rr-1 of _fix_rr: parent and uncle turn black, the grandparent red.
    method PushUpStep(node: RbNode, p: RbNode, g: RbNode, u: RbNode) returns (node': RbNode, p': RbNode?)
      requires Synced() && DoubleRed(Shape(), bh, node) && Elders(Shape(), node, p, g)
      requires u == OtherChild(links, g, p) && u in links && !links[u].black
      modifies this`links, this`bh, Nodes`isblack
      ensures Synced() && DoubleRed(Shape(), bh, g)
      ensures node' == g && p' == links[g].p
    {
      PushUpKeeps(Shape(), bh, node, p, g, u);
      bh := PushUpHeights(bh, p, u);
      SetColor(p, true);
      SetColor(u, true);
      SetColor(g, false);
      node' := g;
      assert SyncedAt(g);
      p' := g.p;
    }

    // From any node up to the root.
    method Climb(node0: RbNode) returns (node: RbNode)
      requires Synced() && Shape().Linked() && node0 in Nodes
      ensures node == root
    {
      node := node0;
      while true
        invariant node in Nodes
        decreases |Seq| - (pos[node].hi - pos[node].lo)
      {
        assert SyncedAt(node) && Shape().LinkedAt(node);
        var p := node.p;
        if p == null {
          break;
        }
        Nested(Shape(), node);
        node := p;
      }
    }

    // set_black(t->root).
    method BlackenTop()
      requires Synced() && Shape().Linked() && Good(links, bh, null, null, null) && root != null
      modifies this`links, this`bh, Nodes`isblack
      ensures Synced() && SettledTree(Shape(), bh, Seq)
    {
      RootPainted(Shape(), bh, root);
      bh := if links[root].black then bh else bh[root := bh[root] + 1];
      SetColor(root, true);
    }

    // The last lines of _fix_rr: find the root and paint it black.
    method RootOnTop(node: RbNode)
      requires Synced() && Shape().Linked() && Good(links, bh, null, null, null) && node in Nodes
      modifies this`root, this`links, this`bh, Nodes`isblack
      ensures Synced() && SettledTree(Shape(), bh, Seq)
    {
      var top := Climb(node);
      root := top;
      BlackenTop();
    }

    // _fix_rr: repair a red node under a red parent.
    method FixRR(node0: RbNode)
      requires Synced() && DoubleRed(Shape(), bh, node0)
      modifies this`root, this`links, this`pos, this`bh, Nodes`lchild, Nodes`rchild, Nodes`p, Nodes`isblack
      ensures old(links[node0].p) == null ==> Shape() == old(Shape()) && bh == old(bh)
      ensures Synced() && (old(links[node0].p) != null ==> SettledTree(Shape(), bh, Seq))
    {
      var node := node0;
      assert SyncedAt(node);
      var p := node.p;
      if p == null {
        return;
      }
      ghost var settled := false;
      while p != null && !p.isblack
        invariant Synced() && node in Nodes && !settled
        invariant DoubleRed(Shape(), bh, node) && p == links[node].p
        decreases |Seq| - (pos[node].hi - pos[node].lo)
      {
        assert SyncedAt(p);
        GrandParent(Shape(), bh, node);
        var g := p.p;
        assert SyncedAt(g) && Shape().LinkedAt(g);
        if p == g.lchild {
          var u := g.rchild;
          assert u != null ==> SyncedAt(u);
          if u != null && !u.isblack {
            node, p := PushUpStep(node, p, g, u);
          } else {
            node := StraightenStepLeft(node, p, g);
            settled := true;
            break;
          }
        } else {
          var u := g.lchild;
          assert u != null ==> SyncedAt(u);
          if u != null && !u.isblack {
            node, p := PushUpStep(node, p, g, u);
          } else {
            node := StraightenStepRight(node, p, g);
            settled := true;
            break;
          }
        }
      }
      if !settled {
        if p != null { assert SyncedAt(p); }
        CalmParent(Shape(), bh, node);
      }
      RootOnTop(node);
    }

    // --- rb_search -----------------------------------------------------------

    ghost predicate Valid()
      reads this, Nodes
    {
      Synced() && RedBlack(Shape(), bh) && size == |Seq| && Sorted(ranges, Seq)
    }

    // A key that no position answers to belongs to no node.
    lemma NoNode(key: int, k: int)
      requires Synced() && Shape().Linked() && Sorted(ranges, Seq) && Between(ranges, Seq, key, k)
      ensures forall n :: n in Nodes ==> Compare(key, n) != 0
    {
      NoHit(ranges, Seq, key, k);
      forall n | n in Nodes
        ensures Compare(key, n) != 0
      {
        assert Shape().LinkedAt(n) && SyncedAt(n);
        assert n == Seq[pos[n].idx];
      }
    }

    // In order the keys ascend, and sections lie one behind the other.
    lemma KeysAscend(i: nat, j: nat)
      requires Valid() && i < j < |Seq|
      ensures Seq[i] in Nodes && Seq[j] in Nodes && Seq[i].key < Seq[j].key
      ensures order.SectionOrder? ==> Seq[i].key < Seq[i].addrEnd <= Seq[j].key < Seq[j].addrEnd
    {
      PlacesHaveNodes(Shape());
      assert SyncedAt(Seq[i]) && SyncedAt(Seq[j]);
    }

    // A key belongs to one node at most; an address lies in one section at most.
    lemma OneNode(key: int, hit: RbNode)
      requires Valid() && hit in Nodes && Compare(key, hit) == 0
      ensures forall n :: n in Nodes && Compare(key, n) == 0 ==> n == hit
      ensures order.DefaultOrder? ==> hit.key == key && forall n :: n in Nodes && n.key == key ==> n == hit
      ensures order.SectionOrder? ==>
        hit.key <= key < hit.addrEnd && forall n :: n in Nodes && n.key <= key < n.addrEnd ==> n == hit
    {
      NodesHavePlaces(Shape());
      assert SyncedAt(hit);
      forall n | n in Nodes && Compare(key, n) == 0
        ensures n == hit
      {
        assert SyncedAt(n);
        OneHit(ranges, Seq, key, pos[n].idx, pos[hit].idx);
      }
    }

    ghost function Slot(n: RbNode, left: bool): int
      reads this`pos
    {
      if n !in pos then 0 else if left then pos[n].idx else pos[n].idx + 1
    }

    // A free child slot of n, between the keys around key.
    ghost predicate SlotFor(key: int, n: RbNode, left: bool)
      reads this`links, this`pos, this`Seq, this`ranges
    {
      && n in links && n in pos && 0 <= pos[n].idx < |Seq|
      && (if left then links[n].l == null else links[n].r == null)
      && Between(ranges, Seq, key, Slot(n, left))
    }

    // The loop of rb_search.
    method Walk(key: int) returns (p: RbNode?, h: RbNode, comp: int, ghost visited: nat)
      requires Valid() && root != null
      ensures h in Nodes && comp == Compare(key, h)
      ensures comp == 0 ==> p == h
      ensures comp != 0 ==> p == null && SlotFor(key, h, comp < 0)
      ensures root in bh && visited <= 2 * bh[root]
    {
      visited, comp, p, h := 0, 1, root, root;
      ghost var lo, hi := 0, |Seq|;
      Descend(Shape(), bh, root);
      while p != null && comp != 0
        invariant 0 <= lo <= hi <= |Seq| && h in Nodes && h in pos && 0 <= pos[h].idx < |Seq|
        invariant p != null ==> p in Nodes && p in pos && pos[p].lo == lo && pos[p].hi == hi
        invariant comp != 0 ==> AllBelow(ranges, Seq, key, lo) && AllAbove(ranges, Seq, key, hi)
        invariant comp == 0 ==> p == h && Compare(key, p) == 0
        invariant p == null ==> lo == hi && Compare(key, h) == comp != 0 && SlotFor(key, h, comp < 0)
        invariant visited + Toll(links, bh, p) <= 2 * bh[root] + (if comp == 0 then 1 else 0)
        decreases hi - lo, comp != 0
      {
        h := p;
        comp := Compare(key, p);
        assert SyncedAt(p);
        Descend(Shape(), bh, p);
        OneSide(ranges, Seq, key, pos[p].idx);
        if comp < 0 {
          hi := pos[p].idx;
          p := p.lchild;
        } else if comp > 0 {
          lo := pos[p].idx + 1;
          p := p.rchild;
        }
        visited := visited + 1;
      }
      if p != null {
        Descend(Shape(), bh, p);
      } else {
        assert Toll(links, bh, p) == 0;
      }
    }

    // rb_search: hot is the last node looked at.
    method Search(key: int) returns (hit: RbNode?, hot: RbNode?, ghost visited: nat)
      requires Valid()
      ensures hit != null ==> hit in Nodes && hot == hit
      ensures hit != null ==> forall n :: n in Nodes ==> (Compare(key, n) == 0 <==> n == hit)
      ensures hit == null ==> forall n :: n in Nodes ==> Compare(key, n) != 0
      ensures hit != null && order.DefaultOrder? ==> forall n :: n in Nodes ==> (n.key == key <==> n == hit)
      ensures hit == null && order.DefaultOrder? ==> forall n :: n in Nodes ==> n.key != key
      ensures hit != null && order.SectionOrder? ==>
        forall n :: n in Nodes ==> (n.key <= key < n.addrEnd <==> n == hit)
      ensures hit == null && order.SectionOrder? ==> forall n :: n in Nodes ==> !(n.key <= key < n.addrEnd)
      ensures hot == null <==> Seq == []
      ensures hit == null && hot != null ==>
                hot in Nodes && Compare(key, hot) != 0 && SlotFor(key, hot, Compare(key, hot) < 0)
      ensures visited <= 2 * Log2(|Seq| + 1)
    {
      hot, visited := null, 0;
      if root == null {
        NoNode(key, 0);
        return null, null, 0;
      }
      HeightBound(Shape(), bh, root);
      var comp;
      hit, hot, comp, visited := Walk(key);
      if hit == null {
        NoNode(key, Slot(hot, comp < 0));
      } else {
        OneNode(key, hit);
      }
    }

    // --- rb_insert ----------------------------------------------------------

    // A new leaf joins the nodes of the tree.
    method Admit(node: RbNode, hot: RbNode, ghost r: Range)
      requires r == RangeOf(node) && Synced()
      requires node.lchild == null && node.rchild == null && !node.isblack && node.p == hot
      modifies this`Nodes, this`links, this`ranges
      ensures Synced() && Nodes == old(Nodes) + {node} && ranges == old(ranges)[node := r]
      ensures links == old(links)[node := Cell(null, null, hot, false)]
    {
      Nodes, links := Nodes + {node}, links[node := Cell(null, null, hot, false)];
      ranges := ranges[node := r];
      forall m | m in Nodes
        ensures SyncedAt(m)
      {
        assert m != node ==> old(SyncedAt(m));
      }
    }

    method AttachLeaf(node: RbNode, hot: RbNode, left: bool, ghost r: Range)
      requires r == RangeOf(node) && Synced() && FreeSlot(links, node, hot, left)
      requires hot in pos && 0 <= pos[hot].idx < |Seq|
      requires node.lchild == null && node.rchild == null && !node.isblack && node.p == hot
      modifies this`Nodes, this`links, this`ranges, this`Seq, this`pos, hot`lchild, hot`rchild
      ensures Synced() && Nodes == old(Nodes) + {node} && ranges == old(ranges)[node := r]
      ensures Shape() == old(Shape()).With(node, hot, left)
    {
      ghost var w := Shape().With(node, hot, left);
      Seq, pos := w.order, w.pos;
      if left {
        SetLeft(hot, node);
      } else {
        SetRight(hot, node);
      }
      Admit(node, hot, r);
    }

    // The tree is then red-black but for the new leaf and its parent.
    method AttachRed(node: RbNode, hot: RbNode, left: bool, ghost r: Range)
      requires r == RangeOf(node) && Synced() && SettledTree(Shape(), bh, Seq) && FreeSlot(links, node, hot, left)
      requires hot in pos && 0 <= pos[hot].idx < |Seq|
      requires node.lchild == null && node.rchild == null && !node.isblack && node.p == hot
      modifies this`Nodes, this`links, this`ranges, this`Seq, this`pos, this`bh, hot`lchild, hot`rchild
      ensures Synced() && Nodes == old(Nodes) + {node} && ranges == old(ranges)[node := r]
      ensures Seq == old(Shape().With(node, hot, left).order)
      ensures DoubleRed(Shape(), bh, node) && links[node].p != null
    {
      AttachKeeps(Shape(), bh, node, hot, left);
      bh := bh[node := 0];
      AttachLeaf(node, hot, left, r);
    }

    method InsertUnder(node: RbNode, hot: RbNode, left: bool, ghost r: Range)
      requires r == RangeOf(node) && Synced() && SettledTree(Shape(), bh, Seq) && FreeSlot(links, node, hot, left)
      requires hot in pos && 0 <= pos[hot].idx < |Seq|
      requires node.lchild == null && node.rchild == null && !node.isblack && node.p == hot
      modifies this`root, this`Nodes, this`links, this`ranges, this`Seq, this`pos, this`bh
      modifies Nodes`lchild, Nodes`rchild, Nodes`p, Nodes`isblack
      modifies node`lchild, node`rchild, node`p, node`isblack
      ensures Synced() && Nodes == old(Nodes) + {node} && ranges == old(ranges)[node := r]
      ensures Shape().order == Seq == old(Shape().With(node, hot, left).order)
      ensures SettledTree(Shape(), bh, Seq)
    {
      AttachRed(node, hot, left, r);
      FixRR(node);
    }

    method InsertFirst(node: RbNode, ghost r: Range)
      requires r == RangeOf(node) && Synced() && Shape().Linked() && root == null && Nodes == {}
      requires node.lchild == null && node.rchild == null && !node.isblack && node.p == null
      modifies this`root, this`Nodes, this`links, this`ranges, this`Seq, this`pos, this`bh
      ensures Synced() && Nodes == {node} && Seq == [node] && root == node
      ensures ranges == old(ranges)[node := r]
      ensures Shape().Linked() && Good(links, bh, null, null, null)
    {
      root := node;
      Nodes, Seq, ranges := {node}, [node], ranges[node := r];
      links, pos, bh := map[node := Cell(null, null, null, false)], map[node := Span(0, 0, 1)], map[node := 0];
      assert SyncedAt(node);
      assert Shape().LinkedAt(node) && Shape().OrderAt(0) && GoodAt(links, bh, null, null, node);
    }

    // A new node starts as a red leaf below hot.
    method ResetLeaf(node: RbNode, hot: RbNode?)
      requires Synced() && node !in Nodes
      modifies node`lchild, node`rchild, node`p, node`isblack
      ensures Synced() && node.lchild == null && node.rchild == null && !node.isblack && node.p == hot
    {
      node.isblack := false;
      node.lchild := null;
      node.rchild := null;
      node.p := hot;
      forall m | m in Nodes
        ensures SyncedAt(m)
      {
        assert old(SyncedAt(m));
      }
    }

    // Hang node under hot, or make it the root, and rebalance.
    method HangAndFix(node: RbNode, hot: RbNode?, ghost r: Range)
      requires r == RangeOf(node) && Synced() && RedBlack(Shape(), bh) && node !in Nodes && (hot == null <==> Seq == [])
      requires hot != null ==> Compare(node.key, hot) != 0 && SlotFor(node.key, hot, Compare(node.key, hot) < 0)
      requires node.lchild == null && node.rchild == null && !node.isblack && node.p == hot
      modifies this`root, this`Nodes, this`links, this`ranges, this`Seq, this`pos, this`bh
      modifies Nodes`lchild, Nodes`rchild, Nodes`p, Nodes`isblack
      modifies node`lchild, node`rchild, node`p, node`isblack
      ensures Synced() && Nodes == old(Nodes) + {node} && SettledTree(Shape(), bh, Seq)
      ensures ranges == old(ranges)[node := r]
      ensures var k := if hot == null then 0 else old(Slot(hot, Compare(node.key, hot) < 0));
        0 <= k <= |old(Seq)| && Seq == Inserted(old(Seq), node, k)
    {
      if hot != null {
        var comp := Compare(node.key, hot);
        InsertUnder(node, hot, comp < 0, r);
      } else {
        NodesHavePlaces(Shape());
        InsertFirst(node, r);
        BlackenTop();
      }
    }

    // The rest of rb_insert once the place is found.
    method AddNew(node: RbNode, hot: RbNode?, ghost r: Range, ghost k: int)
      requires Valid() && r == RangeOf(node) && node !in Nodes && (hot == null <==> Seq == [])
      requires hot != null ==> Compare(node.key, hot) != 0 && SlotFor(node.key, hot, Compare(node.key, hot) < 0)
      requires k == if hot == null then 0 else Slot(hot, Compare(node.key, hot) < 0)
      requires 0 <= k <= |Seq| && Sorted(ranges[node := r], Inserted(Seq, node, k))
      modifies this`root, this`size, this`Nodes, this`links, this`ranges, this`Seq, this`pos, this`bh
      modifies Nodes`lchild, Nodes`rchild, Nodes`p, Nodes`isblack
      modifies node`lchild, node`rchild, node`p, node`isblack
      ensures Valid() && Nodes == old(Nodes) + {node} && Seq == Inserted(old(Seq), node, k)
    {
      ResetLeaf(node, hot);
      HangAndFix(node, hot, r);
      size := size + 1;
    }

    // A key always fits between others, and a section where no other one is met.
    lemma FitsIn(node: RbNode)
      requires Valid()
      requires order.SectionOrder? ==> node.key < node.addrEnd && forall m :: m in Nodes ==>
        m.key <= node.key < m.addrEnd || node.addrEnd <= m.key || m.addrEnd <= node.key
      ensures Fits(ranges, Seq, RangeOf(node)) && RangeOf(node).lo == node.key
    {
      PlacesHaveNodes(Shape());
      forall i | 0 <= i < |Seq|
        ensures SyncedAt(Seq[i]) && Seq[i] in Nodes
      {
      }
    }

    // rb_insert.  A section may only be added where no other section lies.
    method Insert(node: RbNode?) returns (rslt: int)
      requires Valid()
      requires node != null && order.SectionOrder? ==> node.key < node.addrEnd && forall m :: m in Nodes ==>
        m.key <= node.key < m.addrEnd || node.addrEnd <= m.key || m.addrEnd <= node.key
      modifies this`root, this`size, this`Nodes, this`links, this`ranges, this`Seq, this`pos, this`bh
      modifies Nodes`lchild, Nodes`rchild, Nodes`p, Nodes`isblack
      modifies if node == null then {} else {node}
      ensures Valid()
      ensures rslt == 0 <==>
        node != null && node.addr % 4 == 0 && old(forall m :: m in Nodes ==> Compare(node.key, m) != 0)
      ensures order.DefaultOrder? ==>
        (rslt == 0 <==> node != null && node.addr % 4 == 0 && forall m :: m in old(Nodes) ==> old(m.key) != node.key)
      ensures order.SectionOrder? ==>
        (rslt == 0 <==> node != null && node.addr % 4 == 0 &&
                        forall m :: m in old(Nodes) ==> !(old(m.key) <= node.key < old(m.addrEnd)))
      ensures rslt == 0 ==> Nodes == old(Nodes) + {node} && InsertedInto(old(Seq), node, Seq)
      ensures rslt != 0 ==> rslt == -1 && Shape() == old(Shape()) && size == old(size) && Nodes == old(Nodes)
      ensures rslt != 0 && node != null ==> unchanged(node)
      ensures node != null ==> node.key == old(node.key) && node.addrEnd == old(node.addrEnd)
    {
      if node == null || node.addr % 4 != 0 {
        return -1;
      }
      var hit, hot, visited := Search(node.key);
      if hit != null {
        return -1;
      }
      ghost var k := if hot == null then 0 else Slot(hot, Compare(node.key, hot) < 0);
      ghost var r := RangeOf(node);
      PlaceFor(node, hot, k);
      AddNew(node, hot, r, k);
      return 0;
    }

    lemma PlaceFor(node: RbNode, hot: RbNode?, k: int)
      requires Valid() && (forall n :: n in Nodes ==> Compare(node.key, n) != 0) && (hot == null <==> Seq == [])
      requires order.SectionOrder? ==> node.key < node.addrEnd && forall m :: m in Nodes ==>
        m.key <= node.key < m.addrEnd || node.addrEnd <= m.key || m.addrEnd <= node.key
      requires hot != null ==> hot in Nodes && SlotFor(node.key, hot, Compare(node.key, hot) < 0)
      requires k == if hot == null then 0 else Slot(hot, Compare(node.key, hot) < 0)
      ensures node !in Nodes && 0 <= k <= |Seq| && Sorted(ranges[node := RangeOf(node)], Inserted(Seq, node, k))
    {
      FitsIn(node);
      PlacesHaveNodes(Shape());
      SortedInsert(ranges, Seq, node, RangeOf(node), k);
    }

    // --- rb_remove_node ------------------------------------------------------

    method BothBlackStep(c: RbNode, p: RbNode, w: RbNode, ghost d: RbNode)
      requires Synced() && Chasing(Shape(), bh, d, c) && links[c].black && Around(Shape(), d, c, p, w)
      requires links[w].black && Black(links, links[w].l) && Black(links, links[w].r)
      modifies this`links, this`bh, Nodes`isblack
      ensures Synced() && Chasing(Shape(), bh, d, p) && links[d] == old(links[d])
      ensures Width(old(Shape()), c) < Width(Shape(), p) <= |Seq|
    {
      BothBlackKeeps(Shape(), bh, d, c, p, w);
      bh := bh[w := bh[w] - 1][c := bh[c] - 1];
      SetColor(w, false);
    }

    method RedSiblingStepLeft(c: RbNode, p: RbNode, w: RbNode, ghost d: RbNode) returns (w': RbNode)
      requires Synced() && Chasing(Shape(), bh, d, c) && links[c].black && Around(Shape(), d, c, p, w)
      requires links[p].l == c && !links[w].black
      modifies this`root, this`links, this`pos, this`bh, Nodes`lchild, Nodes`rchild, Nodes`p, Nodes`isblack
      ensures Synced() && Chasing(Shape(), bh, d, c) && links[d] == old(links[d])
      ensures links[c].black && Around(Shape(), d, c, p, w') && links[p].l == c && links[w'].black
      ensures c in pos && pos[c] == old(pos[c]) && c != root
    {
      RedSiblingLeft(Shape(), bh, d, c, p, w);
      bh := RedUpHeights(bh, p, w);
      LiftLeft(p, w);
      SiblingExists(Shape(), bh, d, c);
      assert SyncedAt(p);
      w' := p.rchild;
      Surround(Shape(), bh, d, c, p, w');
    }

    method NearRedStepLeft(c: RbNode, p: RbNode, w: RbNode, near: RbNode, ghost d: RbNode)
      requires Synced() && Chasing(Shape(), bh, d, c) && links[c].black && Around(Shape(), d, c, p, w)
      requires links[p].l == c && links[w].black && links[w].l == near && near in links
      requires !links[near].black && Black(links, links[w].r)
      modifies this`root, this`links, this`pos, this`bh, Nodes`lchild, Nodes`rchild, Nodes`p, Nodes`isblack
      ensures Synced() && Chasing(Shape(), bh, d, c) && links[d] == old(links[d])
      ensures c in pos && pos[c] == old(pos[c]) && Phase(Shape(), c) == 0
    {
      NearRedLeft(Shape(), bh, d, c, p, w, near);
      bh := RedUpHeights(bh, w, near);
      LiftRight(w, near);
    }

    method FarRotateLeft(p: RbNode, w: RbNode, far: RbNode)
      requires Synced() && p in links && w in links && far in links && p in pos && w in pos && links[p].r == w
      requires p != w && far != p && far != w
      requires Rotatable(Painted(Painted(Painted(links, w, links[p].black), p, true), far, true), p)
      requires links[p].p == null <==> p == root
      modifies this`root, this`links, this`pos, Nodes`lchild, Nodes`rchild, Nodes`p, Nodes`isblack
      ensures Synced() && Shape() == FarRedLeftView(old(Shape()), p, w, far)
    {
      assert SyncedAt(p);
      SetColor(w, p.isblack);
      SetColor(p, true);
      SetColor(far, true);
      LeftRotate(p);
      pos := TiltedLeft(pos, p, w);
    }

    method FarRedStepLeft(c: RbNode, p: RbNode, w: RbNode, far: RbNode, ghost d: RbNode)
      requires Synced() && Chasing(Shape(), bh, d, c) && links[c].black && Around(Shape(), d, c, p, w)
      requires links[p].l == c && links[w].black && links[w].r == far && far in links && !links[far].black
      modifies this`root, this`links, this`pos, this`bh, Nodes`lchild, Nodes`rchild, Nodes`p, Nodes`isblack
      ensures Synced() && Absorbed(Shape(), bh, d) && links[d] == old(links[d]) && root in links
      ensures Width(old(Shape()), c) < Width(Shape(), root) <= |Seq|
    {
      FarRedLeftKeeps(Shape(), bh, d, c, p, w, far);
      FarRedLeftLinked(Shape(), p, w, far);
      bh := FarRedHeights(bh, c, p, w, far);
      FarRotateLeft(p, w, far);
    }

    // The rest of a round once the sibling w is black.
    method BlackSiblingLeft(c: RbNode, p: RbNode, w: RbNode, ghost d: RbNode) returns (c': RbNode, ghost spent: bool)
      requires Synced() && Chasing(Shape(), bh, d, c) && links[c].black && c != root
      requires Around(Shape(), d, c, p, w) && links[p].l == c && links[w].black
      modifies this`root, this`links, this`pos, this`bh, Nodes`lchild, Nodes`rchild, Nodes`p, Nodes`isblack
      ensures Synced() && d in links && links[d] == old(links[d]) && c' in Nodes
      ensures spent ==> Absorbed(Shape(), bh, d) && c' == root
      ensures !spent ==> Chasing(Shape(), bh, d, c')
      ensures Width(old(Shape()), c) < Width(Shape(), c') <= |Seq|
           || (Black(old(links), old(links[w].r)) && c' == c && c in pos && c in old(pos)
               && pos[c] == old(pos[c]) && Phase(Shape(), c) == 0)
    {
      assert SyncedAt(w);
      var near, far := w.lchild, w.rchild;
      assert (near != null ==> SyncedAt(near)) && (far != null ==> SyncedAt(far));
      if (near == null || near.isblack) && (far == null || far.isblack) {
        BothBlackStep(c, p, w, d);
        return p, false;
      } else if far == null || far.isblack {
        NearRedStepLeft(c, p, w, near, d);
        return c, false;
      } else {
        FarRedStepLeft(c, p, w, far, d);
        return root, true;
      }
    }

    // One round of _fix_bb_new with the cursor on the left of p.
    method RoundLeft(c: RbNode, p: RbNode, ghost d: RbNode) returns (c': RbNode, ghost spent: bool)
      requires Synced() && Chasing(Shape(), bh, d, c) && links[c].black && c != root
      requires links[c].p == p && p in links && links[p].l == c
      modifies this`root, this`links, this`pos, this`bh, Nodes`lchild, Nodes`rchild, Nodes`p, Nodes`isblack
      ensures Synced() && d in links && links[d] == old(links[d]) && c' in Nodes
      ensures spent ==> Absorbed(Shape(), bh, d) && c' == root
      ensures !spent ==> Chasing(Shape(), bh, d, c')
      ensures Progress(old(Shape()), c, Shape(), c')
    {
      SiblingExists(Shape(), bh, d, c);
      assert SyncedAt(p);
      var w := p.rchild;
      Surround(Shape(), bh, d, c, p, w);
      assert SyncedAt(w);
      if !w.isblack {
        w := RedSiblingStepLeft(c, p, w, d);
      }
      c', spent := BlackSiblingLeft(c, p, w, d);
    }

    method RedSiblingStepRight(c: RbNode, p: RbNode, w: RbNode, ghost d: RbNode) returns (w': RbNode)
      requires Synced() && Chasing(Shape(), bh, d, c) && links[c].black && Around(Shape(), d, c, p, w)
      requires links[p].r == c && !links[w].black
      modifies this`root, this`links, this`pos, this`bh, Nodes`lchild, Nodes`rchild, Nodes`p, Nodes`isblack
      ensures Synced() && Chasing(Shape(), bh, d, c) && links[d] == old(links[d])
      ensures links[c].black && Around(Shape(), d, c, p, w') && links[p].r == c && links[w'].black
      ensures c in pos && pos[c] == old(pos[c]) && c != root
    {
      RedSiblingRight(Shape(), bh, d, c, p, w);
      bh := RedUpHeights(bh, p, w);
      LiftRight(p, w);
      SiblingExists(Shape(), bh, d, c);
      assert SyncedAt(p);
      w' := p.lchild;
      Surround(Shape(), bh, d, c, p, w');
    }

    method NearRedStepRight(c: RbNode, p: RbNode, w: RbNode, near: RbNode, ghost d: RbNode)
      requires Synced() && Chasing(Shape(), bh, d, c) && links[c].black && Around(Shape(), d, c, p, w)
      requires links[p].r == c && links[w].black && links[w].r == near && near in links
      requires !links[near].black && Black(links, links[w].l)
      modifies this`root, this`links, this`pos, this`bh, Nodes`lchild, Nodes`rchild, Nodes`p, Nodes`isblack
      ensures Synced() && Chasing(Shape(), bh, d, c) && links[d] == old(links[d])
      ensures c in pos && pos[c] == old(pos[c]) && Phase(Shape(), c) == 0
    {
      NearRedRight(Shape(), bh, d, c, p, w, near);
      bh := RedUpHeights(bh, w, near);
      LiftLeft(w, near);
    }

    method FarRotateRight(p: RbNode, w: RbNode, far: RbNode)
      requires Synced() && p in links && w in links && far in links && p in pos && w in pos && links[p].l == w
      requires p != w && far != p && far != w
      requires RotatableRight(Painted(Painted(Painted(links, w, links[p].black), p, true), far, true), p)
      requires links[p].p == null <==> p == root
      modifies this`root, this`links, this`pos, Nodes`lchild, Nodes`rchild, Nodes`p, Nodes`isblack
      ensures Synced() && Shape() == FarRedRightView(old(Shape()), p, w, far)
    {
      assert SyncedAt(p);
      SetColor(w, p.isblack);
      SetColor(p, true);
      SetColor(far, true);
      RightRotate(p);
      pos := TiltedRight(pos, p, w);
    }

    method FarRedStepRight(c: RbNode, p: RbNode, w: RbNode, far: RbNode, ghost d: RbNode)
      requires Synced() && Chasing(Shape(), bh, d, c) && links[c].black && Around(Shape(), d, c, p, w)
      requires links[p].r == c && links[w].black && links[w].l == far && far in links && !links[far].black
      modifies this`root, this`links, this`pos, this`bh, Nodes`lchild, Nodes`rchild, Nodes`p, Nodes`isblack
      ensures Synced() && Absorbed(Shape(), bh, d) && links[d] == old(links[d]) && root in links
      ensures Width(old(Shape()), c) < Width(Shape(), root) <= |Seq|
    {
      FarRedRightKeeps(Shape(), bh, d, c, p, w, far);
      FarRedRightLinked(Shape(), p, w, far);
      bh := FarRedHeights(bh, c, p, w, far);
      FarRotateRight(p, w, far);
    }

    // The rest of a round once the sibling w is black.
    method BlackSiblingRight(c: RbNode, p: RbNode, w: RbNode, ghost d: RbNode) returns (c': RbNode, ghost spent: bool)
      requires Synced() && Chasing(Shape(), bh, d, c) && links[c].black && c != root
      requires Around(Shape(), d, c, p, w) && links[p].r == c && links[w].black
      modifies this`root, this`links, this`pos, this`bh, Nodes`lchild, Nodes`rchild, Nodes`p, Nodes`isblack
      ensures Synced() && d in links && links[d] == old(links[d]) && c' in Nodes
      ensures spent ==> Absorbed(Shape(), bh, d) && c' == root
      ensures !spent ==> Chasing(Shape(), bh, d, c')
      ensures Width(old(Shape()), c) < Width(Shape(), c') <= |Seq|
           || (Black(old(links), old(links[w].l)) && c' == c && c in pos && c in old(pos)
               && pos[c] == old(pos[c]) && Phase(Shape(), c) == 0)
    {
      assert SyncedAt(w);
      var near, far := w.rchild, w.lchild;
      assert (near != null ==> SyncedAt(near)) && (far != null ==> SyncedAt(far));
      if (near == null || near.isblack) && (far == null || far.isblack) {
        BothBlackStep(c, p, w, d);
        return p, false;
      } else if far == null || far.isblack {
        NearRedStepRight(c, p, w, near, d);
        return c, false;
      } else {
        FarRedStepRight(c, p, w, far, d);
        return root, true;
      }
    }

    // One round of _fix_bb_new with the cursor on the right of p.
    method RoundRight(c: RbNode, p: RbNode, ghost d: RbNode) returns (c': RbNode, ghost spent: bool)
      requires Synced() && Chasing(Shape(), bh, d, c) && links[c].black && c != root
      requires links[c].p == p && p in links && links[p].r == c
      modifies this`root, this`links, this`pos, this`bh, Nodes`lchild, Nodes`rchild, Nodes`p, Nodes`isblack
      ensures Synced() && d in links && links[d] == old(links[d]) && c' in Nodes
      ensures spent ==> Absorbed(Shape(), bh, d) && c' == root
      ensures !spent ==> Chasing(Shape(), bh, d, c')
      ensures Progress(old(Shape()), c, Shape(), c')
    {
      SiblingExists(Shape(), bh, d, c);
      assert SyncedAt(p);
      var w := p.lchild;
      Surround(Shape(), bh, d, c, p, w);
      assert SyncedAt(w);
      if !w.isblack {
        w := RedSiblingStepRight(c, p, w, d);
      }
      c', spent := BlackSiblingRight(c, p, w, d);
    }

    // _fix_bb_new: spend the extra black of the doomed node x0.
    method FixBB(x0: RbNode)
      requires Synced() && Chasing(Shape(), bh, x0, x0)
      modifies this`root, this`links, this`pos, this`bh, Nodes`lchild, Nodes`rchild, Nodes`p, Nodes`isblack
      ensures Synced() && Absorbed(Shape(), bh, x0) && links[x0] == old(links[x0])
    {
      var x := x0;
      ghost var spent := false;
      assert SyncedAt(x);
      while x != root && x.isblack
        invariant Synced() && x in Nodes && x0 in links && links[x0] == old(links[x0])
        invariant spent ==> Absorbed(Shape(), bh, x0) && x == root
        invariant !spent ==> Chasing(Shape(), bh, x0, x)
        decreases |Seq| - Width(Shape(), x), Phase(Shape(), x)
      {
        HasParent(Shape(), x);
        assert SyncedAt(x);
        var p := x.p;
        assert SyncedAt(p);
        if x == p.lchild {
          x, spent := RoundLeft(x, p, x0);
        } else {
          x, spent := RoundRight(x, p, x0);
        }
      }
      assert SyncedAt(x);
      FinishChase(x, x0, spent);
    }

    // The closing set_black of _fix_bb_new.
    method FinishChase(x: RbNode, ghost d: RbNode, ghost spent: bool)
      requires Synced() && x in Nodes && d in links && (x == root || !links[x].black)
      requires spent ==> Absorbed(Shape(), bh, d) && x == root
      requires !spent ==> Chasing(Shape(), bh, d, x)
      modifies this`links, this`bh, Nodes`isblack
      ensures Synced() && Absorbed(Shape(), bh, d) && links[d] == old(links[d])
    {
      if !spent {
        SettleKeeps(Shape(), bh, d, x);
        bh := SettledHeights(links, bh, x);
      } else {
        assert Painted(links, x, true) == links;
      }
      SetColor(x, true);
    }

    // _swap_node, lines that tell the children of p and q their new parent.
    method SwapChildren(p: RbNode, q: RbNode, plc: RbNode?, prc: RbNode?, qlc: RbNode?, qrc: RbNode?)
      requires Synced() && p in Nodes && q in Nodes
      requires forall c :: c in {plc, prc, qlc, qrc} && c != null ==> c in Nodes
      modifies this`links, Nodes`p
      ensures Synced() && links == Adopt(Adopt(Adopt(Adopt(old(links), plc, q), prc, q), qlc, p), qrc, p)
    {
      if plc != null { SetParent(plc, q); }
      if prc != null { SetParent(prc, q); }
      if qlc != null { SetParent(qlc, p); }
      if qrc != null { SetParent(qrc, p); }
    }

    // _swap_node, lines that tell a parent about its new child.
    method SwapInParent(parent: RbNode?, from: RbNode, to: RbNode)
      requires Synced() && (parent != null ==> parent in Nodes)
      modifies this`links, Nodes`lchild, Nodes`rchild
      ensures Synced() && links == Substitute(old(links), parent, from, to)
    {
      if parent != null {
        assert SyncedAt(parent);
        if from == parent.lchild {
          SetLeft(parent, to);
        } else if from == parent.rchild {
          SetRight(parent, to);
        }
      }
    }

    // _swap_value on the three words of a node; the parent word holds the colour.
    method SwapWords(p: RbNode, q: RbNode)
      requires Synced() && p in Nodes && q in Nodes && p != q
      modifies this`links, Nodes`lchild, Nodes`rchild, Nodes`p, Nodes`isblack
      ensures Synced() && links == old(links)[p := old(links[q])][q := old(links[p])]
    {
      ghost var L := links;
      assert SyncedAt(p) && SyncedAt(q);
      var l, r, u, black := p.lchild, p.rchild, p.p, p.isblack;
      SetCell(p, q.lchild, q.rchild, q.p, q.isblack);
      SetCell(q, l, r, u, black);
    }

    method SetCell(n: RbNode, l: RbNode?, r: RbNode?, u: RbNode?, black: bool)
      requires Synced() && n in Nodes
      modifies this`links, n`lchild, n`rchild, n`p, n`isblack
      ensures Synced() && links == old(links)[n := Cell(l, r, u, black)]
    {
      n.lchild, n.rchild, n.p, n.isblack := l, r, u, black;
      links := links[n := Cell(l, r, u, black)];
      forall m | m in Nodes
        ensures SyncedAt(m)
      {
        assert old(SyncedAt(m));
      }
    }

    // _swap_node: the nodes are exchanged, unless p is the left sibling of q.
    method SwapNode(p: RbNode, q: RbNode)
      requires Synced() && Kin(links) && p in Nodes && q in Nodes && p != q
      modifies this`links, Nodes`lchild, Nodes`rchild, Nodes`p, Nodes`isblack
      ensures Synced() && links == Swapped(old(links), p, q)
      ensures links == Renamed(old(links), p, q) <==> !old(LeftSibling(links, p, q))
    {
      ghost var L := links;
      assert SyncedAt(p) && SyncedAt(q) && KinAt(L, p) && KinAt(L, q);
      var plc, prc, pp := p.lchild, p.rchild, p.p;
      var qlc, qrc, qp := q.lchild, q.rchild, q.p;
      SwapChildren(p, q, plc, prc, qlc, qrc);
      SwapParentWrites(L, p, q, links);
      SwapInParent(pp, p, q);
      SwapFirstChild(L, p, q, links);
      SwapInParent(qp, q, p);
      SwapSecondChild(L, p, q, links);
      SwapWords(p, q);
      SwapWrites(L, p, q, links);
      SwapExactly(L, p, q);
    }

    // _link.
    method Link(p: RbNode?, lc: RbNode?, rc: RbNode?)
      requires Synced() && (p != null ==> p in Nodes) && (lc != null ==> lc in Nodes) && (rc != null ==> rc in Nodes)
      modifies this`links, Nodes`lchild, Nodes`rchild, Nodes`p
      ensures Synced() && links == LinkWrites(old(links), p, lc, rc)
    {
      if p == null || p == lc || p == rc {
        return;
      }
      SetChildren(p, lc, rc);
      if lc != null { SetParent(lc, p); }
      if rc != null { SetParent(rc, p); }
    }

    method SetChildren(p: RbNode, lc: RbNode?, rc: RbNode?)
      requires Synced() && p in Nodes
      modifies this`links, p`lchild, p`rchild
      ensures Synced() && links == old(links)[p := old(links[p]).(l := lc, r := rc)]
    {
      SetLeft(p, lc);
      SetRight(p, rc);
    }

    // _transplant, first part: the replacement leaves its parent rm.
    method Orphan(rm: RbNode, sc: RbNode?)
      requires Synced() && Kin(links) && SoleChild(links, rm, sc)
      modifies this`links, Nodes`lchild, Nodes`rchild
      ensures Synced() && links == Orphaned(old(links), rm, sc)
    {
      assert KinAt(links, rm);
      if sc != null {
        assert KinAt(links, sc) && SyncedAt(sc);
        var scP := sc.p;
        assert SyncedAt(scP);
        if sc == scP.lchild {
          SetLeft(scP, null);
        } else if sc == scP.rchild {
          SetRight(scP, null);
        }
      }
    }

    // _transplant, second part, below a parent.
    method Graft(rm: RbNode, sc: RbNode?, rmP: RbNode)
      requires Synced() && rm in Nodes && rmP in Nodes && (sc != null ==> sc in Nodes) && rm != rmP
      requires (links[rmP].l != null ==> links[rmP].l in Nodes) && (links[rmP].r != null ==> links[rmP].r in Nodes)
      requires (links[rm].l != null ==> links[rm].l in Nodes) && rm != sc
      requires links[rmP].l != rmP && links[rmP].r != rmP && sc != rmP
      modifies this`links, Nodes`lchild, Nodes`rchild, Nodes`p
      ensures Synced() && links == GraftWrites(old(links), rm, sc, rmP)
    {
      assert SyncedAt(rm);
      Replace(rm, sc, rmP);
      assert SyncedAt(rm);
      Link(sc, rm.lchild, null);
    }

    method Replace(rm: RbNode, sc: RbNode?, rmP: RbNode)
      requires Synced() && rm in Nodes && rmP in Nodes && (sc != null ==> sc in Nodes)
      requires (links[rmP].l != null ==> links[rmP].l in Nodes) && (links[rmP].r != null ==> links[rmP].r in Nodes)
      requires links[rmP].l != rmP && links[rmP].r != rmP && sc != rmP && rm != rmP && rm != sc
      modifies this`links, Nodes`lchild, Nodes`rchild, Nodes`p
      ensures Synced() && links == ReplaceWrites(old(links), rm, sc, rmP)
      ensures links[rm].l == old(links[rm].l) && links[rm].r == old(links[rm].r)
    {
      assert SyncedAt(rmP);
      if rm == rmP.lchild {
        Link(rmP, sc, rmP.rchild);
        assert SyncedAt(rmP);
      }
      if rm == rmP.rchild {
        Link(rmP, rmP.lchild, sc);
      }
    }

    // Forget a node: it leaves the tree with all its links cleared.
    method Forget(rm: RbNode)
      requires Synced() && rm in Nodes
      modifies this`links, this`Nodes, rm`lchild, rm`rchild, rm`p
      ensures Synced() && Nodes == old(Nodes) - {rm} && links == old(links) - {rm}
      ensures rm.lchild == null && rm.rchild == null && rm.p == null
    {
      rm.p := null;
      rm.lchild := null;
      rm.rchild := null;
      Nodes, links := Nodes - {rm}, links - {rm};
      forall m | m in Nodes
        ensures SyncedAt(m)
      {
        assert old(SyncedAt(m));
      }
    }

    // _transplant: rm leaves, its only child sc (a leaf, or none) takes its place.
    method Transplant(rm: RbNode, sc: RbNode?)
      requires Synced() && Kin(links) && SoleChild(links, rm, sc) && LeafOrNone(links, sc)
      requires sc != null ==> sc != links[rm].p
      modifies this`root, this`links, this`Nodes, Nodes`lchild, Nodes`rchild, Nodes`p
      ensures Synced() && Nodes == old(Nodes) - {rm} && links == Removed(old(links), rm, sc)
      ensures root == if old(links[rm].p) == null then sc else old(root)
      ensures rm.lchild == null && rm.rchild == null && rm.p == null
    {
      ghost var L := links;
      assert SyncedAt(rm) && KinAt(L, rm);
      var rmP := rm.p;
      if sc != null { assert KinAt(L, sc); }
      Orphan(rm, sc);
      if rmP == null {
        GraftAtRoot(rm, sc, L);
      } else {
        assert KinAt(L, rmP);
        Graft(rm, sc, rmP);
        GraftIsGrafted(L, rm, sc, rmP);
        GraftIsRemoval(L, rm, sc, rmP);
      }
      Forget(rm);
    }

    // _transplant, second part, at the root.
    method GraftAtRoot(rm: RbNode, sc: RbNode?, ghost L: Links)
      requires Kin(L) && SoleChild(L, rm, sc) && LeafOrNone(L, sc) && L[rm].p == null
      requires Synced() && links == Orphaned(L, rm, sc)
      modifies this`root, this`links, Nodes`lchild, Nodes`rchild, Nodes`p
      ensures Synced() && root == sc && links.Keys == L.Keys && links - {rm} == Removed(L, rm, sc)
    {
      assert SyncedAt(rm) && KinAt(L, rm);
      if sc != null { assert KinAt(L, sc); }
      Link(sc, rm.lchild, rm.rchild);
      root := sc;
      if sc != null {
        SetParent(sc, null);
      }
      RootIsRemoval(L, rm, sc, links);
    }

    // _succ: the leftmost node of a subtree.
    method Leftmost(subroot: RbNode?) returns (m: RbNode?)
      requires Synced() && Shape().Linked() && (subroot != null ==> subroot in Nodes)
      ensures subroot == null ==> m == null
      ensures subroot != null ==>
                && m != null && m in Nodes && m in pos && subroot in pos && links[m].l == null
                && pos[m].idx == pos[m].lo == pos[subroot].lo && pos[m].hi <= pos[subroot].hi
    {
      if subroot == null {
        return null;
      }
      m := subroot;
      assert Shape().LinkedAt(m);
      var s: RbNode? := subroot;
      while s != null
        invariant m in Nodes && m in pos && pos[m].lo == pos[subroot].lo && pos[m].hi <= pos[subroot].hi
        invariant s != null ==> s in Nodes && s in pos && pos[s].lo == pos[subroot].lo && pos[s].hi <= pos[m].hi
        invariant s == null ==> links[m].l == null
        decreases if s == null then 0 else 1 + pos[s].hi - pos[s].lo
      {
        assert SyncedAt(s) && Shape().LinkedAt(s);
        m := s;
        s := s.lchild;
        if s != null { assert Shape().LinkedAt(s); }
      }
      assert Shape().LinkedAt(m);
    }

    // rb_succ.
    method Succ(x: RbNode?) returns (y: RbNode?)
      requires Synced() && Shape().Linked() && (x != null ==> x in Nodes)
      ensures x == null ==> y == null
      ensures x != null ==>
                && x in pos && 0 <= pos[x].idx < |Seq|
                && y == (if pos[x].idx + 1 < |Seq| then Seq[pos[x].idx + 1] else null)
    {
      if x == null {
        return null;
      }
      assert SyncedAt(x) && Shape().LinkedAt(x);
      var r := x.rchild;
      if r != null {
        y := Leftmost(r);
        assert Shape().LinkedAt(y);
        return;
      }
      y := x.p;
      var z := x;
      while y != null && z == y.rchild
        invariant z in Nodes && y == links[z].p && z in pos && pos[z].hi == pos[x].idx + 1
        decreases |Seq| - (pos[z].hi - pos[z].lo)
      {
        Nested(Shape(), z);
        assert SyncedAt(y) && Shape().LinkedAt(y);
        z := y;
        y := y.p;
      }
      assert Shape().LinkedAt(z);
      if y != null {
        assert SyncedAt(y) && Shape().LinkedAt(y);
      }
    }

    // Spend the black of x before it is taken out.
    method SpendBlack(x: RbNode, ghost sc: RbNode?, doubleBlack: bool)
      requires Synced() && RedBlack(Shape(), bh) && SoleChild(links, x, sc) && doubleBlack == links[x].black
      requires x in pos && 0 <= pos[x].idx < |Seq|
      modifies this`root, this`links, this`pos, this`bh, Nodes`lchild, Nodes`rchild, Nodes`p, Nodes`isblack
      ensures Synced() && Loosened(Shape(), bh, x, sc)
      ensures x in pos && pos[x].idx == old(pos[x].idx)
    {
      ghost var k := pos[x].idx;
      DoomedStart(Shape(), bh, x, sc);
      assert Shape().LinkedAt(x);
      if doubleBlack {
        FixBB(x);
        assert Shape().OrderAt(k);
      }
    }

    // Spend the black of x, then take it out; its only child sc moves up.
    method FixAndTransplant(x: RbNode, sc: RbNode?, doubleBlack: bool)
      requires Synced() && RedBlack(Shape(), bh) && SoleChild(links, x, sc) && doubleBlack == links[x].black
      requires x in pos && 0 <= pos[x].idx < |Seq|
      modifies this`root, this`Nodes, this`links, this`Seq, this`pos, this`bh
      modifies Nodes`lchild, Nodes`rchild, Nodes`p, Nodes`isblack
      ensures Synced() && Nodes == old(Nodes) - {x} && Shape().Linked() && Good(links, bh, null, null, null)
      ensures Erases(old(Seq), old(pos[x].idx), Seq)
      ensures x.lchild == null && x.rchild == null && x.p == null
    {
      SpendBlack(x, sc, doubleBlack);
      Unlink(x, sc);
    }

    // _transplant of a loosened node, spans included.
    method Unlink(x: RbNode, sc: RbNode?)
      requires Synced() && Loosened(Shape(), bh, x, sc) && x in pos && 0 <= pos[x].idx < |Seq|
      modifies this`root, this`Nodes, this`links, this`Seq, this`pos, this`bh
      modifies Nodes`lchild, Nodes`rchild, Nodes`p
      ensures Synced() && Nodes == old(Nodes) - {x} && Shape().Linked() && Good(links, bh, null, null, null)
      ensures Seq == old(Shape().Without(x, sc).order)
      ensures x.lchild == null && x.rchild == null && x.p == null
    {
      ghost var w := Shape().Without(x, sc);
      UnlinkKeeps(Shape(), bh, x, sc);
      Seq, pos, bh := w.order, w.pos, bh - {x};
      Transplant(x, sc);
    }

    // The first lines of rb_remove_node for a node with two children.
    method TradeLinks(x: RbNode, r: RbNode)
      requires Synced() && Kin(links) && x in Nodes && r in Nodes && x != r && root != r
      requires links[r].p != null && links[x].p != links[r].p
      modifies this`root, this`links, Nodes`lchild, Nodes`rchild, Nodes`p, Nodes`isblack
      ensures Synced() && links == Renamed(old(links), x, r) && root == SwapN(x, r, old(root))
    {
      if x == root {
        root := r;
      }
      SwapNode(x, r);
    }

    method TradeViews(x: RbNode, r: RbNode, ghost w: View, ghost h: Heights)
      requires Synced() && Kin(links) && x in Nodes && r in Nodes && x != r && root != r
      requires links[r].p != null && links[x].p != links[r].p
      requires w.links == Renamed(links, x, r) && w.root == SwapN(x, r, root)
      modifies this`root, this`links, this`Seq, this`pos, this`bh, Nodes`lchild, Nodes`rchild, Nodes`p, Nodes`isblack
      ensures Synced() && Shape() == w && bh == h
    {
      Seq, pos, bh := w.order, w.pos, h;
      TradeLinks(x, r);
    }

    // x and its successor r trade places.
    method TradeWithSucc(x: RbNode, r: RbNode)
      requires Synced() && RedBlack(Shape(), bh) && Follows(Shape(), x, r)
      modifies this`root, this`links, this`Seq, this`pos, this`bh, Nodes`lchild, Nodes`rchild, Nodes`p, Nodes`isblack
      ensures Synced() && Shape() == old(Shape().Rename(x, r)) && RedBlack(Shape(), bh)
      ensures SoleChild(links, x, old(links[r].r)) && links[x].black == old(links[r].black)
    {
      RenameKeeps(Shape(), bh, x, r);
      NoSiblings(Shape(), x, r);
      LinkedIsKin(Shape());
      TradeViews(x, r, Shape().Rename(x, r), RenamedHeights(bh, x, r));
    }

    // rb_remove_node up to the closing set_black.
    method Detach(x: RbNode)
      requires Synced() && RedBlack(Shape(), bh) && x in Nodes && x in pos && 0 <= pos[x].idx < |Seq|
      modifies this`root, this`Nodes, this`links, this`Seq, this`pos, this`bh
      modifies Nodes`lchild, Nodes`rchild, Nodes`p, Nodes`isblack
      ensures Synced() && Nodes == old(Nodes) - {x} && Shape().Linked() && Good(links, bh, null, null, null)
      ensures Erases(old(Seq), old(pos[x].idx), Seq)
      ensures x.lchild == null && x.rchild == null && x.p == null
    {
      assert SyncedAt(x) && Shape().LinkedAt(x);
      if x.lchild != null && x.rchild != null {
        var r := Leftmost(x.rchild);
        assert SyncedAt(r) && Shape().LinkedAt(r);
        var rr, doubleBlack := r.rchild, r.isblack;
        ghost var v := Shape();
        TradeWithSucc(x, r);
        FixAndTransplant(x, rr, doubleBlack);
        RenamedOrder(v, x, r, Seq);
      } else {
        var sc := if x.rchild == null then x.lchild else x.rchild;
        FixAndTransplant(x, sc, x.isblack);
      }
    }

    method DetachAndBlacken(x: RbNode)
      requires Synced() && RedBlack(Shape(), bh) && x in Nodes && x in pos && 0 <= pos[x].idx < |Seq|
      modifies this`root, this`Nodes, this`links, this`Seq, this`pos, this`bh
      modifies Nodes`lchild, Nodes`rchild, Nodes`p, Nodes`isblack
      ensures Synced() && Nodes == old(Nodes) - {x} && RedBlack(Shape(), bh)
      ensures Erases(old(Seq), old(pos[x].idx), Seq)
      ensures x.lchild == null && x.rchild == null && x.p == null
    {
      Detach(x);
      if root != null {
        BlackenTop();
      }
    }

    method RemoveFromTree(x: RbNode)
      requires Synced() && RedBlack(Shape(), bh) && x in Nodes && x in pos && 0 <= pos[x].idx < |Seq|
      requires Sorted(ranges, Erased(Seq, pos[x].idx))
      modifies this`root, this`Nodes, this`links, this`Seq, this`pos, this`bh
      modifies Nodes`lchild, Nodes`rchild, Nodes`p, Nodes`isblack
      ensures Synced() && Nodes == old(Nodes) - {x} && RedBlack(Shape(), bh) && Sorted(ranges, Seq)
      ensures Erases(old(Seq), old(pos[x].idx), Seq)
      ensures x.lchild == null && x.rchild == null && x.p == null
    {
      DetachAndBlacken(x);
    }

    // rb_remove_node.
    method RemoveNode(x: RbNode)
      requires Valid() && x in Nodes
      modifies this`root, this`size, this`Nodes, this`links, this`Seq, this`pos, this`bh
      modifies Nodes`lchild, Nodes`rchild, Nodes`p, Nodes`isblack
      ensures Valid() && Nodes == old(Nodes) - {x} && size == old(size) - 1
      ensures old(x in pos) && Erases(old(Seq), old(pos[x].idx), Seq) && old(Seq[pos[x].idx]) == x
      ensures x.lchild == null && x.rchild == null && x.p == null
    {
      assert Shape().LinkedAt(x);
      SortedErase(ranges, Seq, pos[x].idx);
      RemoveFromTree(x);
      CountDown();
    }

    // The last lines of rb_remove_node; an empty tree has no root already.
    method CountDown()
      requires Synced() && RedBlack(Shape(), bh) && size == |Seq| + 1
      modifies this`size, this`root
      ensures Synced() && size == old(size) - 1 && Shape() == old(Shape())
    {
      size := size - 1;
      if size <= 0 {
        root := null;
      }
    }

    // rb_remove: take out the node that answers to key.
    method Remove(key: int) returns (x: RbNode?)
      requires Valid()
      modifies this`root, this`size, this`Nodes, this`links, this`Seq, this`pos, this`bh
      modifies Nodes`lchild, Nodes`rchild, Nodes`p, Nodes`isblack
      ensures Valid()
      ensures x == null <==> old(forall n :: n in Nodes ==> Compare(key, n) != 0)
      ensures order.DefaultOrder? ==> (x == null <==> forall n :: n in old(Nodes) ==> old(n.key) != key)
      ensures order.DefaultOrder? && x != null ==> x.key == key
      ensures order.SectionOrder? ==>
        (x == null <==> forall n :: n in old(Nodes) ==> !(old(n.key) <= key < old(n.addrEnd)))
      ensures order.SectionOrder? && x != null ==> x.key <= key < x.addrEnd
      ensures x == null ==> Shape() == old(Shape()) && Nodes == old(Nodes)
      ensures x != null ==>
                && old(x in Nodes && Compare(key, x) == 0 && x in pos) && Nodes == old(Nodes) - {x}
                && Erases(old(Seq), old(pos[x].idx), Seq)
    {
      if root == null {
        NodesHavePlaces(Shape());
        return null;
      }
      if size <= 0 {
        return null;
      }
      var hot;
      ghost var visited;
      x, hot, visited := Search(key);
      if x == null {
        return null;
      }
      RemoveNode(x);
    }
  }

  ghost predicate InsertedInto(s: seq<RbNode>, node: RbNode, t: seq<RbNode>) {
    exists k :: 0 <= k <= |s| && t == Inserted(s, node, k)
  }
}
