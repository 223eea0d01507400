// Keys: every node answers to a range of keys, and in order the ranges ascend.
module RbKeys {
  import opened RbShape

  datatype Range = Range(lo: int, hi: int)

  type Ranges = map<RbNode, Range>

  // What _def_order_func says of [key, key + 1) and _shmm_comp_func of a section.
  function Side(key: int, r: Range): int {
    if key < r.lo then -1 else if key >= r.hi then 1 else 0
  }

  ghost predicate Sorted(ranges: Ranges, s: seq<RbNode>) {
    && (forall i :: 0 <= i < |s| ==> s[i] in ranges && ranges[s[i]].lo < ranges[s[i]].hi)
    && (forall i, j :: 0 <= i < j < |s| ==> ranges[s[i]].hi <= ranges[s[j]].lo)
  }

  ghost predicate AllBelow(ranges: Ranges, s: seq<RbNode>, key: int, k: int) {
    0 <= k <= |s| && forall i :: 0 <= i < k ==> s[i] in ranges && ranges[s[i]].hi <= key
  }

  ghost predicate AllAbove(ranges: Ranges, s: seq<RbNode>, key: int, k: int) {
    0 <= k <= |s| && forall i :: k <= i < |s| ==> s[i] in ranges && key < ranges[s[i]].lo
  }

  ghost predicate Between(ranges: Ranges, s: seq<RbNode>, key: int, k: int) {
    AllBelow(ranges, s, key, k) && AllAbove(ranges, s, key, k)
  }

  // The node at position k rules out one side of the sequence.
  lemma OneSide(ranges: Ranges, s: seq<RbNode>, key: int, k: int)
    requires Sorted(ranges, s) && 0 <= k < |s|
    ensures Side(key, ranges[s[k]]) < 0 ==> AllAbove(ranges, s, key, k)
    ensures Side(key, ranges[s[k]]) > 0 ==> AllBelow(ranges, s, key, k + 1)
  {
  }

  // A key between two neighbours meets no node, and a key meets one node only.
  lemma NoHit(ranges: Ranges, s: seq<RbNode>, key: int, k: int)
    requires Sorted(ranges, s) && Between(ranges, s, key, k)
    ensures forall i :: 0 <= i < |s| ==> Side(key, ranges[s[i]]) != 0
  {
  }

  lemma OneHit(ranges: Ranges, s: seq<RbNode>, key: int, i: int, j: int)
    requires Sorted(ranges, s) && 0 <= i < |s| && 0 <= j < |s|
    requires Side(key, ranges[s[i]]) == 0 && Side(key, ranges[s[j]]) == 0
    ensures i == j
  {
  }

  // A range that meets no other, unless its first key does.
  ghost predicate Fits(ranges: Ranges, s: seq<RbNode>, r: Range) {
    && r.lo < r.hi
    && forall i :: 0 <= i < |s| ==>
         && s[i] in ranges
         && (Side(r.lo, ranges[s[i]]) == 0 || r.hi <= ranges[s[i]].lo || ranges[s[i]].hi <= r.lo)
  }

  ghost function Inserted(s: seq<RbNode>, node: RbNode, k: int): seq<RbNode>
    requires 0 <= k <= |s|
  {
    s[..k] + [node] + s[k..]
  }

  lemma SortedInsert(ranges: Ranges, s: seq<RbNode>, node: RbNode, r: Range, k: int)
    requires Sorted(ranges, s) && node !in s && Fits(ranges, s, r) && Between(ranges, s, r.lo, k)
    ensures Sorted(ranges[node := r], Inserted(s, node, k))
  {
    var t, q := Inserted(s, node, k), ranges[node := r];
    forall i | k <= i < |s|
      ensures r.hi <= ranges[s[i]].lo
    {
      assert ranges[s[i]].lo < ranges[s[i]].hi;
    }
    forall i | 0 <= i < |t|
      ensures t[i] in q && q[t[i]].lo < q[t[i]].hi
    {
      assert t[i] == if i < k then s[i] else if i == k then node else s[i - 1];
    }
    forall i, j | 0 <= i < j < |t|
      ensures q[t[i]].hi <= q[t[j]].lo
    {
      assert t[i] == if i < k then s[i] else if i == k then node else s[i - 1];
      assert t[j] == if j < k then s[j] else if j == k then node else s[j - 1];
    }
  }

  // Taking a node out keeps the rest in order.
  ghost function Erased(s: seq<RbNode>, k: int): seq<RbNode>
    requires 0 <= k < |s|
  {
    s[..k] + s[k + 1..]
  }

  lemma SortedErase(ranges: Ranges, s: seq<RbNode>, k: int)
    requires Sorted(ranges, s) && 0 <= k < |s|
    ensures Sorted(ranges, Erased(s, k))
  {
    var t := Erased(s, k);
    forall i, j | 0 <= i < j < |t|
      ensures ranges[t[i]].hi <= ranges[t[j]].lo
    {
      assert t[i] == s[if i < k then i else i + 1] && t[j] == s[if j < k then j else j + 1];
    }
  }
}
