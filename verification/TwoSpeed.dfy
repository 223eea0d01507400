// Two cursors on one chain of links, one twice as fast as the other: they meet
// exactly when the chain never ends (src/dlist.c).
module TwoSpeed {

  // The node reached after i links; the end of the chain has no link.
  ghost function At<T>(f: map<T, T>, x: T, i: nat): T {
    if i == 0 then x
    else var y := At(f, x, i - 1); if y in f then f[y] else y
  }

  // Every link leads to a linked node or to the end.
  ghost predicate Links<T>(f: map<T, T>, x: T, end: T) {
    && end !in f && (x == end || x in f)
    && forall n {:trigger f[n]} :: n in f ==> f[n] == end || f[n] in f
  }

  ghost predicate Reaches<T>(f: map<T, T>, x: T, end: T) {
    exists k: nat :: At(f, x, k) == end
  }

  lemma {:induction false} Linked<T>(f: map<T, T>, x: T, end: T, i: nat)
    requires Links(f, x, end)
    ensures At(f, x, i) == end || At(f, x, i) in f
  {
    if i > 0 {
      Linked(f, x, end, i - 1);
    }
  }

  // The walk along c when every node of c links to the next one.
  lemma {:induction false} Along<T>(f: map<T, T>, c: seq<T>, k: nat)
    requires k < |c| && forall i {:trigger c[i]} :: 0 <= i < |c| - 1 ==> c[i] in f && f[c[i]] == c[i + 1]
    ensures At(f, c[0], k) == c[k]
  {
    if k > 0 {
      Along(f, c, k - 1);
    }
  }

  // Once at the end, always at the end.
  lemma {:induction false} Stays<T>(f: map<T, T>, x: T, end: T, i: nat, j: nat)
    requires Links(f, x, end) && At(f, x, i) == end && i <= j
    ensures At(f, x, j) == end
    decreases j
  {
    if i < j {
      Stays(f, x, end, i, j - 1);
    }
  }

  // What comes after a node depends on the node alone.
  lemma {:induction false} SameAfter<T>(f: map<T, T>, x: T, i: nat, j: nat, k: nat)
    requires At(f, x, i) == At(f, x, j)
    ensures At(f, x, i + k) == At(f, x, j + k)
  {
    if k > 0 {
      SameAfter(f, x, i, j, k - 1);
    }
  }

  // A chain that comes back repeats for ever.
  lemma {:induction false} Repeats<T>(f: map<T, T>, x: T, i: nat, p: nat, m: nat)
    requires At(f, x, i) == At(f, x, i + p)
    ensures At(f, x, i + m * p) == At(f, x, i)
    decreases m
  {
    if m > 0 {
      Repeats(f, x, i, p, m - 1);
      SameAfter(f, x, i + (m - 1) * p, i, p);
      assert i + (m - 1) * p + p == i + m * p;
    }
  }

  // Cursors that meet before the end never get there.
  lemma MeetingIsLoop<T>(f: map<T, T>, x: T, end: T, t: nat)
    requires Links(f, x, end) && t >= 1 && At(f, x, t) == At(f, x, 2 * t) != end
    ensures !Reaches(f, x, end)
  {
    if Reaches(f, x, end) {
      var k: nat :| At(f, x, k) == end;
      Repeats(f, x, t, t, k);
      assert k * t >= k;
      Stays(f, x, end, k, t + k * t);
    }
  }

  // Among the first |f| + 1 nodes one comes twice.
  lemma {:induction false} Pigeons<T>(f: map<T, T>, s: set<T>, x: T, n: nat) returns (i: nat, j: nat)
    requires |s| < n && forall k: nat :: k < n ==> At(f, x, k) in s
    ensures i < j < n && At(f, x, i) == At(f, x, j)
    decreases n
  {
    var y := At(f, x, n - 1);
    if k: nat :| k < n - 1 && At(f, x, k) == y {
      i, j := k, n - 1;
    } else {
      assert |s - {y}| == |s| - 1;
      i, j := Pigeons(f, s - {y}, x, n - 1);
    }
  }

  lemma MultipleFrom(i: nat, p: nat) returns (t: nat, q: nat)
    requires p >= 1
    ensures i <= t <= i + p && t >= 1 && t == q * p && (i >= 1 ==> t < i + p)
  {
    t, q := p, 1;
    while t < i
      invariant t == q * p && p <= t <= i + p && (i >= 1 ==> t < i + p)
    {
      t, q := t + p, q + 1;
    }
  }

  // On a chain without end the cursors have met after |f| rounds.
  lemma CursorsMeet<T>(f: map<T, T>, x: T, end: T) returns (t: nat)
    requires Links(f, x, end) && forall k: nat :: k <= |f| ==> At(f, x, k) != end
    ensures 1 <= t <= |f| && At(f, x, t) == At(f, x, 2 * t)
  {
    forall k: nat | k < |f| + 1
      ensures At(f, x, k) in f.Keys
    {
      Linked(f, x, end, k);
    }
    assert |f.Keys| == |f|;
    var i, j := Pigeons(f, f.Keys, x, |f| + 1);
    var q;
    t, q := MultipleFrom(i, j - i);
    SameAfter(f, x, i, j, t - i);
    assert i + (t - i) == t && j + (t - i) == t + (j - i);
    Repeats(f, x, t, j - i, q);
  }

  // Cursors that have not met by then are at the end.
  lemma StillApart<T>(f: map<T, T>, x: T, end: T, t: nat)
    requires Links(f, x, end) && t >= |f|
    requires forall k: nat {:trigger At(f, x, k)} :: k < 2 * t ==> At(f, x, k) != end
    requires forall k: nat :: 1 <= k <= t ==> At(f, x, k) != At(f, x, 2 * k)
    ensures At(f, x, 2 * t) == end
  {
    if At(f, x, 2 * t) != end {
      var k := CursorsMeet(f, x, end);
      assert false;
    }
  }
}
