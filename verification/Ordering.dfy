/** The order of sort.Strings and of SQL text columns: lexicographic by code point. */
module Ordering {
  import opened Sequences

  predicate Below(a: string, b: string) {
    b != [] && (a == [] || a[0] < b[0] || (a[0] == b[0] && Below(a[1..], b[1..])))
  }

  /** The first difference decides, and a text comes before its continuations. */
  lemma {:induction false} BelowIff(common: string, a: string, b: string)
    requires a == [] || b == [] || a[0] != b[0]
    ensures Below(common + a, common + b) <==> b != [] && (a == [] || a[0] < b[0])
  {
    if common == [] {
      assert common + a == a && common + b == b;
    } else {
      assert (common + a)[1..] == common[1..] + a && (common + b)[1..] == common[1..] + b;
      BelowIff(common[1..], a, b);
    }
  }

  lemma {:induction false} BelowIsStrict(a: string, b: string)
    requires Below(a, b)
    ensures a != b && !Below(b, a)
  {
    if a != [] && a[0] == b[0] {
      BelowIsStrict(a[1..], b[1..]);
    }
  }

  lemma {:induction false} BelowIsTransitive(a: string, b: string, c: string)
    requires Below(a, b) && Below(b, c)
    ensures Below(a, c)
  {
    if a != [] && a[0] == b[0] == c[0] {
      BelowIsTransitive(a[1..], b[1..], c[1..]);
    }
  }

  lemma {:induction false} BelowIsTotal(a: string, b: string)
    ensures a == b || Below(a, b) || Below(b, a)
  {
    if a != [] && b != [] && a[0] == b[0] {
      BelowIsTotal(a[1..], b[1..]);
      assert a == [a[0]] + a[1..] && b == [b[0]] + b[1..];
    }
  }

  predicate Sorted(s: seq<string>) {
    forall i, j :: 0 <= i < j < |s| ==> !Below(s[j], s[i])
  }

  function Insert(x: string, s: seq<string>): seq<string> {
    if s == [] || !Below(s[0], x) then [x] + s else [s[0]] + Insert(x, s[1..])
  }

  /** sort.Strings. */
  function SortStrings(s: seq<string>): seq<string> {
    if s == [] then [] else Insert(s[0], SortStrings(s[1..]))
  }

  lemma {:induction false} InsertSorts(x: string, s: seq<string>)
    requires Sorted(s)
    ensures Sorted(Insert(x, s)) && multiset(Insert(x, s)) == multiset{x} + multiset(s)
  {
    if s == [] {
    } else if !Below(s[0], x) {
      InsertFirst(x, s);
    } else {
      var rest := Insert(x, s[1..]);
      InsertSorts(x, s[1..]);
      assert s == [s[0]] + s[1..];
      forall y | y in rest ensures !Below(y, s[0]) {
        assert y in multiset(rest);
        if y == x {
          BelowIsStrict(s[0], x);
        } else {
          var j :| 1 <= j < |s| && s[j] == y;
        }
      }
      ConsSorted(s[0], rest);
    }
  }

  lemma ConsSorted(x: string, s: seq<string>)
    requires Sorted(s) && forall y | y in s :: !Below(y, x)
    ensures Sorted([x] + s)
  {
    var r := [x] + s;
    forall i, j | 0 <= i < j < |r| ensures !Below(r[j], r[i]) {
      assert r[j] == s[j - 1] && s[j - 1] in s;
    }
  }

  lemma InsertFirst(x: string, s: seq<string>)
    requires Sorted(s) && s != [] && !Below(s[0], x)
    ensures Sorted([x] + s)
  {
    forall y | y in s ensures !Below(y, x) {
      var j :| 0 <= j < |s| && s[j] == y;
      if Below(y, x) && j > 0 {
        BelowIsTotal(s[0], y);
        if Below(s[0], y) {
          BelowIsTransitive(s[0], y, x);
        }
      }
    }
    ConsSorted(x, s);
  }

  lemma {:induction false} SortStringsSorts(s: seq<string>)
    ensures Sorted(SortStrings(s)) && multiset(SortStrings(s)) == multiset(s)
  {
    if s != [] {
      SortStringsSorts(s[1..]);
      InsertSorts(s[0], SortStrings(s[1..]));
      assert s == [s[0]] + s[1..];
    }
  }

  lemma HeadIsLeast(s: seq<string>, x: string)
    requires Sorted(s) && x in multiset(s)
    ensures !Below(x, s[0]) && multiset(s[1..]) == multiset(s) - multiset{s[0]}
  {
    var j :| 0 <= j < |s| && s[j] == x;
    if j == 0 && Below(x, s[0]) {
      BelowIsStrict(x, s[0]);
    }
    assert s == [s[0]] + s[1..];
  }

  /** A sorted sequence is determined by what it contains. */
  lemma {:induction false} SortedIsUnique(s: seq<string>, t: seq<string>)
    requires Sorted(s) && Sorted(t) && multiset(s) == multiset(t)
    ensures s == t
  {
    assert |multiset(s)| == |s| && |multiset(t)| == |t|;
    if s != [] {
      assert s[0] in multiset(s) && t[0] in multiset(t);
      HeadIsLeast(s, t[0]);
      HeadIsLeast(t, s[0]);
      BelowIsTotal(s[0], t[0]);
      SortedIsUnique(s[1..], t[1..]);
      assert s == [s[0]] + s[1..] && t == [t[0]] + t[1..];
    }
  }

  /** Sorting forgets the order of its input. */
  lemma SortForgetsOrder(s: seq<string>, t: seq<string>)
    ensures multiset(s) == multiset(t) <==> SortStrings(s) == SortStrings(t)
  {
    SortStringsSorts(s);
    SortStringsSorts(t);
    if multiset(s) == multiset(t) {
      SortedIsUnique(SortStrings(s), SortStrings(t));
    }
  }

  /** Two duplicate-free listings of one set sort to the same sequence. */
  lemma {:induction false} DistinctSameMultiset(s: seq<string>, t: seq<string>)
    requires Distinct(s) && Distinct(t) && forall x :: x in s <==> x in t
    ensures multiset(s) == multiset(t)
  {
    forall x ensures multiset(s)[x] == multiset(t)[x] {
      DistinctCount(s, x);
      DistinctCount(t, x);
    }
  }

  lemma {:induction false} DistinctCount(s: seq<string>, x: string)
    requires Distinct(s)
    ensures multiset(s)[x] == if x in s then 1 else 0
  {
    if s != [] {
      DistinctTail(s);
      DistinctCount(s[1..], x);
      assert s == [s[0]] + s[1..];
    }
  }
}
