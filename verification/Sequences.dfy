/** Sequences that list a set: every element once, in some order. */
module Sequences {
  predicate Distinct<T(==)>(s: seq<T>) {
    forall i, j :: 0 <= i < j < |s| ==> s[i] != s[j]
  }

  lemma DistinctAppend<T>(s: seq<T>, x: T)
    requires Distinct(s) && x !in s
    ensures Distinct(s + [x])
  {
  }

  lemma DistinctConcat<T>(s: seq<T>, t: seq<T>)
    requires Distinct(s) && Distinct(t)
    requires forall x | x in s :: x !in t
    ensures Distinct(s + t)
  {
    var u := s + t;
    forall i, j | 0 <= i < j < |u| ensures u[i] != u[j] {
      if i < |s| <= j {
        assert s[i] in s && t[j - |s|] in t;
      }
    }
  }

  lemma DistinctTail<T>(s: seq<T>)
    requires Distinct(s) && s != []
    ensures Distinct(s[1..]) && s[0] !in s[1..]
    ensures forall x :: x in s <==> x == s[0] || x in s[1..]
  {
    assert s == [s[0]] + s[1..];
  }

  lemma NoMembers<T>(s: seq<T>)
    ensures (forall x :: x !in s) ==> s == []
  {
    if s != [] {
      assert s[0] in s;
    }
  }

  function Elems<T>(s: seq<T>): set<T> {
    set x | x in s
  }

  lemma SubsetSize<T>(a: set<T>, b: set<T>)
    requires a <= b
    ensures |a| <= |b|
  {
    assert b == a + (b - a);
  }

  function Map<A, B>(f: A -> B, s: seq<A>): (t: seq<B>)
    ensures |t| == |s| && forall i | 0 <= i < |s| :: t[i] == f(s[i])
  {
    seq(|s|, i requires 0 <= i < |s| => f(s[i]))
  }

  function DropAt<T>(s: seq<T>, k: nat): seq<T>
    requires k < |s|
  {
    s[..k] + s[k + 1..]
  }

  lemma {:induction false} TakeOut<T>(s: seq<T>, k: nat)
    requires k < |s|
    ensures multiset(s) == multiset{s[k]} + multiset(DropAt(s, k))
  {
    assert s == s[..k] + [s[k]] + s[k + 1..];
  }

  lemma {:induction false} MapTakeOut<A, B>(f: A -> B, s: seq<A>, k: nat)
    requires k < |s|
    ensures multiset(Map(f, s)) == multiset{f(s[k])} + multiset(Map(f, DropAt(s, k)))
  {
    assert DropAt(Map(f, s), k) == Map(f, DropAt(s, k));
    TakeOut(Map(f, s), k);
  }

  lemma SameMultisetSameLength<T>(a: seq<T>, b: seq<T>)
    requires multiset(a) == multiset(b)
    ensures |a| == |b|
  {
    assert |multiset(a)| == |a| && |multiset(b)| == |b|;
  }

  /** Mapping respects reordering. */
  lemma {:induction false} MapPermutes<A, B>(f: A -> B, a: seq<A>, b: seq<A>)
    requires multiset(a) == multiset(b)
    ensures multiset(Map(f, a)) == multiset(Map(f, b))
    decreases |a|
  {
    SameMultisetSameLength(a, b);
    if a != [] {
      assert a[0] in multiset(a);
      var k :| 0 <= k < |b| && b[k] == a[0];
      TakeOut(a, 0);
      TakeOut(b, k);
      assert multiset(DropAt(a, 0)) == multiset(a) - multiset{a[0]};
      assert multiset(DropAt(b, k)) == multiset(b) - multiset{a[0]};
      MapPermutes(f, DropAt(a, 0), DropAt(b, k));
      MapTakeOut(f, a, 0);
      MapTakeOut(f, b, k);
    }
  }

  /** A map that keeps elements apart reflects reordering. */
  lemma {:induction false} MapReflects<A, B>(f: A -> B, a: seq<A>, b: seq<A>)
    requires forall x, y | x in a && y in b :: f(x) == f(y) ==> x == y
    requires multiset(Map(f, a)) == multiset(Map(f, b))
    ensures multiset(a) == multiset(b)
    decreases |a|
  {
    SameMultisetSameLength(Map(f, a), Map(f, b));
    if a != [] {
      assert f(a[0]) == Map(f, a)[0] && Map(f, a)[0] in multiset(Map(f, a));
      var k :| 0 <= k < |b| && Map(f, b)[k] == f(a[0]);
      assert b[k] in b && b[k] == a[0];
      MapTakeOut(f, a, 0);
      MapTakeOut(f, b, k);
      assert multiset(Map(f, DropAt(a, 0))) == multiset(Map(f, a)) - multiset{f(a[0])};
      assert multiset(Map(f, DropAt(b, k))) == multiset(Map(f, b)) - multiset{f(a[0])};
      MapReflects(f, DropAt(a, 0), DropAt(b, k));
      TakeOut(a, 0);
      TakeOut(b, k);
    }
  }
}
