// Lists of node numbers without repetition, as the allocators keep them.
module Lists {

  ghost predicate Distinct<T>(s: seq<T>) {
    forall i, j :: 0 <= i < j < |s| ==> s[i] != s[j]
  }

  lemma InsertDistinct<T>(s: seq<T>, i: nat, x: T)
    requires Distinct(s) && i <= |s| && x !in s
    ensures Distinct(s[..i] + [x] + s[i..])
  {
  }

  lemma DropDistinct<T>(s: seq<T>, i: nat)
    requires Distinct(s) && i < |s|
    ensures Distinct(s[..i] + s[i + 1..])
  {
  }

  // Taking f out of a list that may or may not hold it.
  function Minus(s: seq<nat>, f: nat): (r: seq<nat>)
    ensures forall g :: g in r <==> g in s && g != f
  {
    if s == [] then [] else if s[0] == f then Minus(s[1..], f) else [s[0]] + Minus(s[1..], f)
  }

  lemma DistinctCons(x: nat, s: seq<nat>)
    requires Distinct(s) && x !in s
    ensures Distinct([x] + s)
  {
    var t := [x] + s;
    forall i, j | 0 <= i < j < |t|
      ensures t[i] != t[j]
    {
      assert t[j] == s[j - 1] && t[j] in s;
    }
  }

  lemma DistinctTail(s: seq<nat>)
    requires Distinct(s) && s != []
    ensures Distinct(s[1..]) && s[0] !in s[1..]
  {
  }

  lemma {:induction false} MinusDistinct(s: seq<nat>, f: nat)
    requires Distinct(s)
    ensures Distinct(Minus(s, f))
    ensures f !in s ==> Minus(s, f) == s
  {
    if s != [] {
      DistinctTail(s);
      MinusDistinct(s[1..], f);
      assert s == [s[0]] + s[1..];
      if s[0] != f {
        DistinctCons(s[0], Minus(s[1..], f));
      }
    }
  }
}
