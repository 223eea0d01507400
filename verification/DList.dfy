// The doubly linked list of src/dlist.c, with a sentinel at each end.
module DList {
  import opened Lists
  import opened TwoSpeed

  class Node {
    var prev: Node?
    var next: Node?

    // lst_clr
    constructor ()
      ensures prev == null && next == null
    {
      prev, next := null, null;
    }
  }

  class List {
    const head: Node
    const tail: Node
    ghost var nodes: seq<Node>

    // The nodes with both sentinels.
    ghost function Chain(): seq<Node>
      reads `nodes
    {
      [head] + nodes + [tail]
    }

    ghost predicate LinkedAt(i: int)
      reads this, Chain()
    {
      0 <= i < |nodes| + 1 ==> Chain()[i].next == Chain()[i + 1] && Chain()[i + 1].prev == Chain()[i]
    }

    ghost predicate Valid()
      reads this, head, tail, Chain()
    {
      && head.prev == null && tail.next == null
      && Distinct(Chain())
      && forall i {:trigger LinkedAt(i)} :: LinkedAt(i)
    }

    // lst_new
    constructor ()
      ensures Valid() && nodes == [] && fresh(head) && fresh(tail)
    {
      var h := new Node();
      var t := new Node();
      h.next, t.prev := t, h;
      head, tail, nodes := h, t, [];
    }

    // lst_empty
    method Empty() returns (r: bool)
      requires Valid()
      ensures r <==> nodes == []
    {
      r := head.next == tail || tail.prev == head;
      assert LinkedAt(0) && LinkedAt(|nodes|);
    }

    // The four link writes that put node between two neighbours.
    method LinkBetween(p: Node, node: Node, s: Node, ghost i: nat)
      requires Valid() && i <= |nodes| && p == Chain()[i] && s == Chain()[i + 1] && node !in Chain()
      modifies this`nodes, node, p`next, s`prev
      ensures nodes == old(nodes)[..i] + [node] + old(nodes)[i..]
      ensures Valid()
    {
      ghost var c := Chain();
      assert c[0] == head != c[i + 1] && c[|c| - 1] == tail != c[i] && node != head && node != tail;
      node.prev, node.next := p, s;
      p.next := node;
      s.prev := node;
      nodes := nodes[..i] + [node] + nodes[i..];
      assert Chain() == c[..i + 1] + [node] + c[i + 1..];
      InsertDistinct(c, i + 1, node);
      forall k
        ensures LinkedAt(k)
      {
        if k < i { assert old(LinkedAt(k)); } else if i + 1 < k { assert old(LinkedAt(k - 1)); }
      }
    }

    // Where a node stands in the chain.
    ghost predicate Stands(n: Node, i: int)
      reads `nodes
    {
      0 <= i < |Chain()| && Chain()[i] == n
    }

    // lst_insert_before
    method InsertBefore(suc: Node?, node: Node?, ghost i: nat) returns (rslt: int)
      requires Valid() && (suc != null ==> Stands(suc, i)) && (node != null ==> node !in Chain())
      modifies this`nodes, node, Chain()
      ensures Valid() && (rslt == 0 <==> suc != null && node != null && suc != head) && (rslt == 0 || rslt == -1)
      ensures rslt == -1 ==> nodes == old(nodes)
      ensures rslt == 0 ==> 1 <= i && nodes == old(nodes)[..i - 1] + [node] + old(nodes)[i - 1..]
    {
      if suc == null || node == null { return -1; }
      if suc == head { return -1; }
      assert LinkedAt(i - 1);
      LinkBetween(suc.prev, node, suc, i - 1);
      return 0;
    }

    // lst_insert_after
    method InsertAfter(prv: Node?, node: Node?, ghost i: nat) returns (rslt: int)
      requires Valid() && (prv != null ==> Stands(prv, i)) && (node != null ==> node !in Chain())
      modifies this`nodes, node, Chain()
      ensures Valid() && (rslt == 0 <==> prv != null && node != null && prv != tail) && (rslt == 0 || rslt == -1)
      ensures rslt == -1 ==> nodes == old(nodes)
      ensures rslt == 0 ==> i <= |old(nodes)| && nodes == old(nodes)[..i] + [node] + old(nodes)[i..]
    {
      if prv == null || node == null { return -1; }
      if prv == tail { return -1; }
      assert LinkedAt(i);
      LinkBetween(prv, node, prv.next, i);
      return 0;
    }

    // lst_push_back
    method PushBack(node: Node?) returns (rslt: int)
      requires Valid() && (node != null ==> node !in Chain())
      modifies this`nodes, node, Chain()
      ensures Valid() && nodes == if node == null then old(nodes) else old(nodes) + [node]
      ensures rslt == if node == null then -1 else 0
    {
      assert Chain()[0] != Chain()[|nodes| + 1];
      rslt := InsertBefore(tail, node, |nodes| + 1);
      assert old(nodes)[..|old(nodes)|] == old(nodes) && old(nodes)[|old(nodes)|..] == [];
    }

    // lst_push_front
    method PushFront(node: Node?) returns (rslt: int)
      requires Valid() && (node != null ==> node !in Chain())
      modifies this`nodes, node, Chain()
      ensures Valid() && nodes == if node == null then old(nodes) else [node] + old(nodes)
      ensures rslt == if node == null then -1 else 0
    {
      assert Chain()[0] != Chain()[|nodes| + 1];
      rslt := InsertAfter(head, node, 0);
      assert old(nodes)[..0] == [] && old(nodes)[0..] == old(nodes);
    }

    // The four link writes that take a node out.
    method Unlink(node: Node, ghost i: nat)
      requires Valid() && i < |nodes| && nodes[i] == node && node.prev != null && node.next != null
      modifies this`nodes, node, Chain()
      ensures Valid() && nodes == old(nodes)[..i] + old(nodes)[i + 1..] && node.prev == null && node.next == null
    {
      ghost var c := Chain();
      assert LinkedAt(i) && LinkedAt(i + 1) && c[i + 1] == node;
      assert c[0] == head != c[i + 2] && c[|c| - 1] == tail != c[i] && node != head && node != tail;
      node.prev.next := node.next;
      node.next.prev := node.prev;
      node.prev, node.next := null, null;
      nodes := nodes[..i] + nodes[i + 1..];
      assert Chain() == c[..i + 1] + c[i + 2..];
      DropDistinct(c, i + 1);
      forall k
        ensures LinkedAt(k)
      {
        if k < i { assert old(LinkedAt(k)); } else if i < k { assert old(LinkedAt(k + 1)); }
      }
    }

    lemma NotLoose(node: Node)
      requires Valid() && node in nodes
      ensures node.prev != null && node.next != null && node != head && node != tail
    {
      var i :| 0 <= i < |nodes| && nodes[i] == node;
      assert LinkedAt(i) && LinkedAt(i + 1) && Chain()[i + 1] == node;
    }

    // lst_remove: refused exactly for no node, a sentinel, or a node of no list.
    method Remove(node: Node?) returns (rslt: int, ghost i: nat)
      requires Valid()
      requires node != null ==> node in Chain() || node.prev == null || node.next == null
      modifies this`nodes, node, Chain()
      ensures Valid() && (rslt == 0 <==> node != null && node in old(nodes)) && (rslt == 0 || rslt == -1)
      ensures rslt == -1 ==> nodes == old(nodes)
      ensures rslt == 0 ==> i < |old(nodes)| && old(nodes)[i] == node && nodes == old(nodes)[..i] + old(nodes)[i + 1..]
      ensures rslt == 0 ==> node.prev == null && node.next == null
    {
      rslt, i := -1, 0;
      if node == null { return; }
      if node.prev == null || node.next == null {
        if node in nodes { NotLoose(node); }
        return;
      }
      assert LinkedAt(0) && LinkedAt(|nodes|);
      if tail.prev == head || head.next == tail { return; }
      if node == head || node == tail { return; }
      i :| 0 <= i < |nodes| && nodes[i] == node;
      Unlink(node, i);
      return 0, i;
    }

    // lst_pop_front
    method PopFront() returns (node: Node?)
      requires Valid()
      modifies this`nodes, Chain()
      ensures Valid() && (node == null <==> old(nodes) == [])
      ensures node == null ==> nodes == []
      ensures node != null ==> old(nodes) == [node] + nodes && node.prev == null && node.next == null
    {
      ghost var c, i := Chain(), 0;
      assert LinkedAt(0);
      node := head.next;
      assert nodes == [] ==> node == tail;
      var rslt;
      rslt, i := Remove(node);
      if rslt < 0 { return null; }
      assert c[i + 1] == c[1];
    }

    // lst_pop_back
    method PopBack() returns (node: Node?)
      requires Valid()
      modifies this`nodes, Chain()
      ensures Valid() && (node == null <==> old(nodes) == [])
      ensures node == null ==> nodes == []
      ensures node != null ==> old(nodes) == nodes + [node] && node.prev == null && node.next == null
    {
      ghost var c, i, n := Chain(), 0, |nodes|;
      assert LinkedAt(n);
      node := tail.prev;
      assert nodes == [] ==> node == head;
      var rslt;
      rslt, i := Remove(node);
      if rslt < 0 { return null; }
      assert c[i + 1] == c[n];
    }

    // --- lst_check ------------------------------------------------------------------

    // In a finite set of nodes no link to the next one is missing before tail.
    ghost predicate NextClosed(graph: set<Node>)
      reads graph
    {
      && head in graph && tail in graph && head != tail
      && forall n {:trigger n.next} :: n in graph && n != tail ==> n.next != null && n.next in graph
    }

    // In a finite set of nodes no link to the one in front is missing before head.
    ghost predicate PrevClosed(graph: set<Node>)
      reads graph
    {
      && head in graph && tail in graph && head != tail
      && forall n {:trigger n.prev} :: n in graph && n != head ==> n.prev != null && n.prev in graph
    }

    ghost function NextLinks(graph: set<Node>): map<Node, Node>
      requires NextClosed(graph)
      reads graph
    {
      map n | n in graph && n != tail :: n.next
    }

    ghost function PrevLinks(graph: set<Node>): map<Node, Node>
      requires PrevClosed(graph)
      reads graph
    {
      map n | n in graph && n != head :: n.prev
    }

    // The first loop of _lst_check_loop: true when the chain from head ends.
    method CheckNext(ghost graph: set<Node>) returns (ok: bool)
      requires NextClosed(graph)
      ensures ok <==> Reaches<Node>(NextLinks(graph), head.next, tail)
    {
      var pf: Node, ps: Node := head.next, head.next;
      ghost var f, x: Node, t: nat := NextLinks(graph), pf, 0;
      while true
        invariant Links(f, x, tail) && ps == At(f, x, t) && pf == At(f, x, 2 * t) && pf in graph && ps in graph
        invariant forall k: nat {:trigger At(f, x, k)} :: k < 2 * t ==> At(f, x, k) != tail
        invariant forall k: nat :: 1 <= k <= t ==> At(f, x, k) != At(f, x, 2 * k)
        decreases |f| - t
      {
        if t >= |f| { StillApart(f, x, tail, t); }
        if pf == tail || pf.next == tail {
          assert pf == tail || At(f, x, 2 * t + 1) == tail;
          return true;
        }
        if ps == tail { return true; }
        assert At(f, x, 2 * t + 1) == pf.next && At(f, x, 2 * t + 2) == pf.next.next && At(f, x, t + 1) == ps.next;
        pf := pf.next.next;
        ps := ps.next;
        t := t + 1;
        if pf == ps {
          MeetingIsLoop(f, x, tail, t);
          return false;
        }
      }
    }

    // The second loop: true when the chain back from tail ends.
    method CheckPrev(ghost graph: set<Node>) returns (ok: bool)
      requires PrevClosed(graph)
      ensures ok <==> Reaches<Node>(PrevLinks(graph), tail.prev, head)
    {
      var pf: Node, ps: Node := tail.prev, tail.prev;
      ghost var f, x: Node, t: nat := PrevLinks(graph), pf, 0;
      while true
        invariant Links(f, x, head) && ps == At(f, x, t) && pf == At(f, x, 2 * t) && pf in graph && ps in graph
        invariant forall k: nat {:trigger At(f, x, k)} :: k < 2 * t ==> At(f, x, k) != head
        invariant forall k: nat :: 1 <= k <= t ==> At(f, x, k) != At(f, x, 2 * k)
        decreases |f| - t
      {
        if t >= |f| { StillApart(f, x, head, t); }
        if pf == head || pf.prev == head {
          assert pf == head || At(f, x, 2 * t + 1) == head;
          return true;
        }
        if ps == head { return true; }
        assert At(f, x, 2 * t + 1) == pf.prev && At(f, x, 2 * t + 2) == pf.prev.prev && At(f, x, t + 1) == ps.prev;
        pf := pf.prev.prev;
        ps := ps.prev;
        t := t + 1;
        if pf == ps {
          MeetingIsLoop(f, x, head, t);
          return false;
        }
      }
    }

    // lst_check: 0 exactly when the links from head lead to tail and the links
    // back from tail lead to head.
    method Check(ghost nexts: set<Node>, ghost prevs: set<Node>) returns (rslt: int)
      requires NextClosed(nexts) && PrevClosed(prevs)
      ensures rslt == 0 || rslt == -1
      ensures rslt == 0 <==>
        Reaches<Node>(NextLinks(nexts), head.next, tail) && Reaches<Node>(PrevLinks(prevs), tail.prev, head)
    {
      var ok := CheckNext(nexts);
      if !ok { return -1; }
      ok := CheckPrev(prevs);
      if !ok { return -1; }
      return 0;
    }

    ghost function Graph(): set<Node>
      reads `nodes
    {
      set n | n in Chain()
    }

    lemma ValidIsClosed()
      requires Valid()
      ensures NextClosed(Graph()) && PrevClosed(Graph())
    {
      var c := Chain();
      assert c[0] == head && c[|c| - 1] == tail;
      forall n | n in Graph()
        ensures n != tail ==> n.next != null && n.next in Graph()
        ensures n != head ==> n.prev != null && n.prev in Graph()
      {
        var i :| 0 <= i < |c| && c[i] == n;
        assert LinkedAt(i) && LinkedAt(i - 1);
      }
    }

    lemma Forward()
      requires Valid() && NextClosed(Graph())
      ensures Reaches<Node>(NextLinks(Graph()), head.next, tail)
    {
      var f, c := NextLinks(Graph()), nodes + [tail];
      forall i | 0 <= i < |c| - 1
        ensures c[i] in f && f[c[i]] == c[i + 1]
      {
        assert LinkedAt(i + 1) && Chain()[i + 1] == c[i] != Chain()[|c|];
      }
      assert LinkedAt(0);
      Along(f, c, |nodes|);
    }

    lemma Backward()
      requires Valid() && PrevClosed(Graph())
      ensures Reaches<Node>(PrevLinks(Graph()), tail.prev, head)
    {
      var f, n, d := PrevLinks(Graph()), |nodes|, [head] + nodes;
      var c := seq(n + 1, k requires 0 <= k <= n => d[n - k]);
      forall i | 0 <= i < |c| - 1
        ensures c[i] in f && f[c[i]] == c[i + 1]
      {
        var j := n - i - 1;
        assert LinkedAt(j) && Chain()[j + 1] == c[i] != Chain()[0] && Chain()[j] == c[i + 1];
      }
      assert LinkedAt(n);
      Along(f, c, n);
    }

    // A valid list passes lst_check.
    lemma ValidPasses()
      requires Valid()
      ensures NextClosed(Graph()) && PrevClosed(Graph())
      ensures Reaches<Node>(NextLinks(Graph()), head.next, tail) && Reaches<Node>(PrevLinks(Graph()), tail.prev, head)
    {
      ValidIsClosed();
      Forward();
      Backward();
    }
  }
}
