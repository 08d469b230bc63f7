/** strings.TrimSpace and duplicate-free sorted listings of trimmed names. */
module Names {
  import opened Sequences
  import opened Ordering

  /** unicode.IsSpace. */
  predicate IsSpace(c: char) {
    c in {'\t', '\n', '\U{0B}', '\U{0C}', '\r', ' ', '\U{85}', '\U{A0}', '\U{1680}',
          '\U{2028}', '\U{2029}', '\U{202F}', '\U{205F}', '\U{3000}'}
    || '\U{2000}' <= c <= '\U{200A}'
  }

  /** The code points with the property White_Space. */
  lemma SpaceIsWhite(c: char)
    ensures IsSpace(c) <==>
      var n := c as int;
      9 <= n <= 13 || n in {0x20, 0x85, 0xa0, 0x1680, 0x2028, 0x2029, 0x202f, 0x205f, 0x3000} || 0x2000 <= n <= 0x200a
  {
  }

  function TrimLeft(s: string): string {
    if s != "" && IsSpace(s[0]) then TrimLeft(s[1..]) else s
  }

  function TrimRight(s: string): string {
    if s != "" && IsSpace(s[|s| - 1]) then TrimRight(s[..|s| - 1]) else s
  }

  function Trim(s: string): string {
    TrimRight(TrimLeft(s))
  }

  lemma {:induction false} TrimLeftStops(s: string)
    ensures var t := TrimLeft(s); t == "" || !IsSpace(t[0])
  {
    if s != "" && IsSpace(s[0]) {
      TrimLeftStops(s[1..]);
    }
  }

  lemma {:induction false} TrimRightStops(s: string)
    requires s == "" || !IsSpace(s[0])
    ensures var t := TrimRight(s); t == "" || (t[0] == s[0] && !IsSpace(t[|t| - 1]))
    ensures s != "" ==> TrimRight(s) != ""
  {
    if s != "" && IsSpace(s[|s| - 1]) {
      TrimRightStops(s[..|s| - 1]);
    }
  }

  /** Trimming takes spaces off both ends and nothing else. */
  lemma TrimTakesSpaces(s: string) returns (before: string, after: string)
    ensures s == before + Trim(s) + after && (forall c <- before + after :: IsSpace(c))
    ensures Trim(s) == "" || (!IsSpace(Trim(s)[0]) && !IsSpace(Trim(s)[|Trim(s)| - 1]))
  {
    before := LeftSpaces(s);
    after := RightSpaces(TrimLeft(s));
    TrimLeftStops(s);
    TrimRightStops(TrimLeft(s));
  }

  lemma {:induction false} LeftSpaces(s: string) returns (before: string)
    ensures s == before + TrimLeft(s) && forall c <- before :: IsSpace(c)
  {
    if s != "" && IsSpace(s[0]) {
      before := LeftSpaces(s[1..]);
      before := [s[0]] + before;
    } else {
      before := "";
    }
  }

  lemma {:induction false} RightSpaces(s: string) returns (after: string)
    ensures s == TrimRight(s) + after && forall c <- after :: IsSpace(c)
  {
    if s != "" && IsSpace(s[|s| - 1]) {
      after := RightSpaces(s[..|s| - 1]);
      after := after + [s[|s| - 1]];
    } else {
      after := "";
    }
  }

  lemma TrimIsIdempotent(s: string)
    ensures Trim(Trim(s)) == Trim(s)
  {
    TrimLeftStops(s);
    TrimRightStops(TrimLeft(s));
  }

  /** The non-empty trimmed forms of some raw names. */
  function Trimmed(raw: set<string>): set<string> {
    set k | k in raw && Trim(k) != "" :: Trim(k)
  }

  lemma TrimmedAgain(raw: set<string>)
    ensures Trimmed(Trimmed(raw)) == Trimmed(raw)
  {
    forall k | k in raw ensures Trim(Trim(k)) == Trim(k) {
      TrimIsIdempotent(k);
    }
    forall x | x in Trimmed(raw) ensures x in Trimmed(Trimmed(raw)) {
      var k :| k in raw && Trim(k) != "" && Trim(k) == x;
      assert Trim(x) == x;
    }
  }

  /** `s` lists exactly `content`, sorted and without duplicates. */
  ghost predicate Listing(s: seq<string>, content: set<string>) {
    Sorted(s) && Distinct(s) && Elems(s) == content
  }

  /** There is only one such list. */
  lemma ListingIsUnique(s: seq<string>, t: seq<string>, content: set<string>)
    requires Listing(s, content) && Listing(t, content)
    ensures s == t
  {
    forall x ensures x in s <==> x in t {
      assert x in Elems(s) <==> x in Elems(t);
    }
    DistinctSameMultiset(s, t);
    SortedIsUnique(s, t);
  }

  lemma {:induction false} DistinctFromCounts(s: seq<string>)
    requires forall x :: multiset(s)[x] <= 1
    ensures Distinct(s)
  {
    forall i, j | 0 <= i < j < |s| ensures s[i] != s[j] {
      assert s == s[..j] + s[j..];
      assert s[..j][i] == s[i] && s[j..][0] == s[j];
      assert multiset(s)[s[j]] == multiset(s[..j])[s[j]] + multiset(s[j..])[s[j]];
      assert multiset(s[j..])[s[j]] >= 1;
      assert s[j] !in s[..j];
    }
  }

  /** Sorting a duplicate-free list gives the listing of its elements. */
  lemma SortGivesListing(s: seq<string>)
    requires Distinct(s)
    ensures Listing(SortStrings(s), Elems(s))
  {
    var t := SortStrings(s);
    SortStringsSorts(s);
    forall x ensures multiset(t)[x] <= 1 && (x in t <==> x in s) {
      DistinctCount(s, x);
      assert x in t <==> x in multiset(t);
      assert x in s <==> x in multiset(s);
    }
    DistinctFromCounts(t);
  }

  /** Adds the trimmed form of one raw name, unless empty or already seen. */
  method Add(raw: string, seen: set<string>, out: seq<string>) returns (seen': set<string>, out': seq<string>)
    requires Distinct(out) && seen == Elems(out)
    ensures Distinct(out') && seen' == Elems(out') == seen + Trimmed({raw})
    ensures out <= out'
  {
    var name := Trim(raw);
    seen', out' := seen, out;
    if name != "" && name !in seen {
      DistinctAppend(out, name);
      seen', out' := seen + {name}, out + [name];
    }
  }

  /** Adds a list of raw names. */
  method AddList(raw: seq<string>, seen: set<string>, out: seq<string>) returns (seen': set<string>, out': seq<string>)
    requires Distinct(out) && seen == Elems(out)
    ensures Distinct(out') && seen' == Elems(out') == seen + Trimmed(Elems(raw))
  {
    seen', out' := seen, out;
    for i := 0 to |raw|
      invariant Distinct(out') && seen' == Elems(out') == seen + Trimmed(Elems(raw[..i]))
    {
      assert raw[..i + 1] == raw[..i] + [raw[i]];
      assert Trimmed(Elems(raw[..i + 1])) == Trimmed(Elems(raw[..i])) + Trimmed({raw[i]});
      seen', out' := Add(raw[i], seen', out');
    }
    assert raw[..|raw|] == raw;
  }

  /** Adds the keys of a map, in whatever order it yields them. */
  method AddKeys(raw: set<string>, seen: set<string>, out: seq<string>) returns (seen': set<string>, out': seq<string>)
    requires Distinct(out) && seen == Elems(out)
    ensures Distinct(out') && seen' == Elems(out') == seen + Trimmed(raw)
  {
    seen', out' := seen, out;
    var todo := raw;
    while todo != {}
      invariant todo <= raw
      invariant Distinct(out') && seen' == Elems(out') == seen + Trimmed(raw - todo)
      decreases |todo|
    {
      var name :| name in todo;
      assert raw - (todo - {name}) == (raw - todo) + {name};
      assert Trimmed((raw - todo) + {name}) == Trimmed(raw - todo) + Trimmed({name});
      seen', out' := Add(name, seen', out');
      todo := todo - {name};
    }
    assert raw - todo == raw;
  }
}
