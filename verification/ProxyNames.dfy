/**
  Unique proxy names in a Clash profile (internal/sub/clash_service.go): every name
  non-empty, no name twice, and the search for a free suffix always ends.
*/
module ProxyNames {
  import opened Decimals
  import opened Sequences

  // ---------------------------------------------------------------- numbered suffixes

  function Suffixed(base: string, n: nat): string {
    base + "-" + Decimal(n)
  }

  lemma SuffixIsInjective(base: string, m: nat, n: nat)
    requires Suffixed(base, m) == Suffixed(base, n)
    ensures m == n
  {
    var k := |base| + 1;
    assert Suffixed(base, m)[k..] == Decimal(m) && Suffixed(base, n)[k..] == Decimal(n);
    DecimalIsInjective(m, n);
  }

  // ---------------------------------------------------------------- the free suffix

  lemma {:induction false} DistinctFits(s: seq<string>, seen: set<string>)
    requires Distinct(s) && forall x <- s :: x in seen
    ensures |s| <= |seen|
  {
    if s != [] {
      DistinctTail(s);
      DistinctFits(s[1..], seen - {s[0]});
    }
  }

  /** The candidates with numbers in [2, n). */
  function Candidates(base: string, n: nat): (s: seq<string>)
    requires n >= 2
    ensures |s| == n - 2
  {
    seq(n - 2, i requires 0 <= i < n - 2 => Suffixed(base, i + 2))
  }

  /** While every candidate so far is taken, each has used up a different seen name. */
  lemma TakenIsBounded(base: string, seen: set<string>, n: nat)
    requires n >= 2 && AllTaken(base, seen, n)
    ensures n - 2 <= |seen|
  {
    var s := Candidates(base, n);
    forall i, j | 0 <= i < j < |s| ensures s[i] != s[j] {
      if s[i] == s[j] {
        SuffixIsInjective(base, i + 2, j + 2);
      }
    }
    forall x | x in s ensures x in seen {
      var i :| 0 <= i < |s| && s[i] == x;
      assert Suffixed(base, i + 2) in seen;
    }
    DistinctFits(s, seen);
  }

  /** Every candidate with a number in [2, n) is taken. */
  predicate AllTaken(base: string, seen: set<string>, n: nat) {
    forall j: nat | 2 <= j < n :: Suffixed(base, j) in seen
  }

  /** The smallest number from `n` on whose suffixed name is free. */
  function FirstFree(base: string, seen: set<string>, n: nat): (k: nat)
    requires n >= 2 && AllTaken(base, seen, n)
    ensures k >= n && Suffixed(base, k) !in seen && AllTaken(base, seen, k)
    decreases |seen| + 2 - n
  {
    TakenIsBounded(base, seen, n);
    if Suffixed(base, n) !in seen then n
    else
      TakenIsBounded(base, seen, n + 1);
      FirstFree(base, seen, n + 1)
  }

  /** The name a proxy gets. */
  function UniqueName(base: string, seen: set<string>): (name: string)
    ensures name !in seen && (base != "" ==> name != "")
  {
    if base !in seen then base else Suffixed(base, FirstFree(base, seen, 2))
  }

  /** It is the base, or the base with the smallest free suffix from 2 on. */
  lemma UniqueNameIsLeast(base: string, seen: set<string>)
    ensures var name := UniqueName(base, seen);
      if base !in seen then name == base
      else exists k: nat | k >= 2 :: name == Suffixed(base, k) && AllTaken(base, seen, k) && Suffixed(base, k) !in seen
  {
    if base in seen {
      var k := FirstFree(base, seen, 2);
      assert AllTaken(base, seen, k) && UniqueName(base, seen) == Suffixed(base, k);
    }
  }

  // ---------------------------------------------------------------- the loop

  /** A Clash proxy entry: its "name" is rewritten in place; the other keys are only read. */
  class Proxy {
    var name: string
    const kind: string
    const server: string
    const port: string   // the %v rendering of the port

    constructor (name: string, kind: string, server: string, port: string)
      ensures this.name == name && this.kind == kind && this.server == server && this.port == port
    {
      this.name, this.kind, this.server, this.port := name, kind, server, port;
    }
  }

  /** fallbackProxyName. */
  function FallbackName(kind: string, server: string, port: string, index: nat): (name: string)
    ensures name != ""
  {
    if kind != "" && server != "" then kind + "-" + server + "-" + port
    else "proxy-" + Decimal(index + 1)
  }

  /** An entry without a name is called by its type, server and port, or else by its place from 1 on. */
  lemma FallbackNames()
    ensures FallbackName("vless", "a.b", "443", 0) == "vless-a.b-443"
    ensures FallbackName("", "a.b", "443", 0) == "proxy-1" && FallbackName("vless", "", "443", 9) == "proxy-10"
    ensures Suffixed("x", 2) == "x-2" && Suffixed("x", 12) == "x-12"
  {
    assert Decimal(1) == "1" && Decimal(2) == "2";
    assert Decimal(10) == Decimal(1) + ['0'] && Decimal(12) == Decimal(1) + ['2'];
  }

  function BaseName(p: Proxy, index: nat): (base: string)
    reads p
    ensures base != ""
  {
    if p.name != "" then p.name else FallbackName(p.kind, p.server, p.port, index)
  }

  /** The names of a list of bases, each made unique against those before it. */
  function UniqueNames(bases: seq<string>): (names: seq<string>)
    ensures |names| == |bases|
  {
    if bases == [] then []
    else
      var front := UniqueNames(bases[..|bases| - 1]);
      front + [UniqueName(bases[|bases| - 1], Elems(front))]
  }

  lemma {:induction false} NameAt(bases: seq<string>, i: nat)
    requires i < |bases|
    ensures UniqueNames(bases)[i] == UniqueName(bases[i], Elems(UniqueNames(bases)[..i]))
    decreases |bases|
  {
    var n := |bases| - 1;
    var front := UniqueNames(bases[..n]);
    assert UniqueNames(bases)[..n] == front;
    if i < n {
      NameAt(bases[..n], i);
      assert UniqueNames(bases)[..i] == front[..i];
    }
  }

  /** Names are pairwise distinct, non-empty, and each its base or its base with the smallest free suffix. */
  lemma NamesAreUnique(bases: seq<string>)
    requires forall base <- bases :: base != ""
    ensures var names := UniqueNames(bases);
      && Distinct(names)
      && (forall i | 0 <= i < |names| :: names[i] != "" && names[i] == UniqueName(bases[i], Elems(names[..i])))
  {
    var names := UniqueNames(bases);
    forall i | 0 <= i < |names| ensures names[i] != "" && names[i] == UniqueName(bases[i], Elems(names[..i])) {
      NameAt(bases, i);
      assert bases[i] in bases;
    }
    forall i, j | 0 <= i < j < |names| ensures names[i] != names[j] {
      NameAt(bases, j);
      assert names[..j][i] in Elems(names[..j]);
    }
  }

  /** The inner loop: the next free candidate. */
  method FreeName(base: string, seen: set<string>) returns (name: string)
    ensures name == UniqueName(base, seen)
  {
    name := base;
    var n := 2;
    while name in seen
      invariant n >= 2 && (n == 2 ==> name == base) && (n > 2 ==> name == Suffixed(base, n - 1) && base in seen)
      invariant n > 2 ==> AllTaken(base, seen, n - 1)
      decreases |seen| + 3 - n
    {
      if n > 2 {
        TakenIsBounded(base, seen, n);
      }
      name := Suffixed(base, n);
      n := n + 1;
    }
    if n > 2 {
      FirstFreeIs(base, seen, 2, n - 1);
    }
  }

  lemma FirstFreeIs(base: string, seen: set<string>, n: nat, k: nat)
    requires 2 <= n <= k && Suffixed(base, k) !in seen
    requires AllTaken(base, seen, k)
    ensures FirstFree(base, seen, n) == k
  {
    var f := FirstFree(base, seen, n);
    assert Suffixed(base, f) !in seen;
  }

  lemma NextName(bases: seq<string>, i: nat)
    requires i < |bases|
    ensures var names := UniqueNames(bases);
      && UniqueName(bases[i], Elems(names[..i])) == names[i]
      && Elems(names[..i + 1]) == Elems(names[..i]) + {names[i]}
  {
    NameAt(bases, i);
    PrefixElems(UniqueNames(bases), i);
  }

  lemma PrefixElems(s: seq<string>, i: nat)
    requires i < |s|
    ensures Elems(s[..i + 1]) == Elems(s[..i]) + {s[i]}
  {
    assert s[..i + 1] == s[..i] + [s[i]];
  }

  lemma NamesAreDistinct(bases: seq<string>)
    requires forall base <- bases :: base != ""
    ensures Distinct(UniqueNames(bases))
  {
    NamesAreUnique(bases);
  }

  /**
    ensureUniqueProxyNames.  Every name ends non-empty; the names are pairwise distinct exactly
    when no entry is the same object as another, and are then UniqueNames of the old bases.
  */
  method EnsureUniqueProxyNames(proxies: seq<Proxy>)
    modifies proxies
    ensures forall p <- proxies :: p.name != ""
    ensures (forall i, j | 0 <= i < j < |proxies| :: proxies[i].name != proxies[j].name) <==> Distinct(proxies)
    ensures Distinct(proxies) ==>
      forall i | 0 <= i < |proxies| :: proxies[i].name == UniqueNames(old(Bases(proxies)))[i]
  {
    var seen: set<string> := {};
    ghost var bases := Bases(proxies);
    for i := 0 to |proxies|
      invariant forall j | 0 <= j < i :: proxies[j].name != ""
      invariant Distinct(proxies) ==> NamedUpTo(proxies, bases, i) && seen == Elems(UniqueNames(bases)[..i])
    {
      seen := NameTurn(proxies, i, seen, bases);
    }
    NamesAreDistinct(bases);
  }

  /** One turn of the loop; entries that are not aliased keep their names. */
  method NameTurn(proxies: seq<Proxy>, i: nat, seen: set<string>, ghost bases: seq<string>) returns (now: set<string>)
    requires i < |proxies| == |bases|
    requires forall j | 0 <= j < i :: proxies[j].name != ""
    requires Distinct(proxies) ==> NamedUpTo(proxies, bases, i) && seen == Elems(UniqueNames(bases)[..i])
    modifies proxies[i]
    ensures forall j | 0 <= j <= i :: proxies[j].name != ""
    ensures Distinct(proxies) ==> NamedUpTo(proxies, bases, i + 1) && now == Elems(UniqueNames(bases)[..i + 1])
  {
    NextName(bases, i);
    var name := NameProxy(proxies[i], i, seen);
    now := seen + {name};
  }

  /** The first entries have their final names, the others their old ones. */
  ghost predicate NamedUpTo(proxies: seq<Proxy>, bases: seq<string>, i: nat)
    requires i <= |proxies| == |bases|
    reads proxies
  {
    && (forall j | 0 <= j < i :: proxies[j].name == UniqueNames(bases)[j])
    && (forall j | i <= j < |proxies| :: BaseName(proxies[j], j) == bases[j])
  }

  /** The turn of one entry: its base made unique against the names seen so far. */
  method NameProxy(p: Proxy, index: nat, seen: set<string>) returns (name: string)
    modifies p
    ensures p.name == name == UniqueName(old(BaseName(p, index)), seen)
  {
    var base := BaseName(p, index);
    name := FreeName(base, seen);
    p.name := name;
  }

  function Bases(proxies: seq<Proxy>): (bases: seq<string>)
    reads proxies
    ensures |bases| == |proxies|
  {
    seq(|proxies|, i requires 0 <= i < |proxies| reads proxies => BaseName(proxies[i], i))
  }
}
