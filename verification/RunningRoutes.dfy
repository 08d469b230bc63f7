/**
  What validation gives to the group that really runs (Start in internal/frontmux/manager.go).

  Start keeps a plan in canonical form and validates that plan, which canonicalises it once more;
  selection canonicalises the running group too. Canonical form is not a fixed point (a name loses
  one trailing dot a time), so the validated routes are one canonicalisation further than those
  that selection runs over.
*/
module RunningRoutes {
  import opened Wrappers
  import opened Sequences
  import opened Ordering
  import opened Names
  import opened Routes
  import opened RouteValidation

  /** Group.canonical. */
  function CanonicalGroup(lib: Library, g: Group): Group {
    g.(routes := Canonical(lib, g))
  }

  /** The running group has passed Start: its canonical form is a valid group. */
  predicate Started(lib: Library, g: Group) {
    GroupOk(lib, CanonicalGroup(lib, g))
  }

  /** The names of a connection have a canonical form. */
  predicate Lasting(lib: Library, sel: Selector) {
    match sel
    case BySni(name) => CanonicalString(lib)(name).Some?
    case ByHttp(host, path) => CanonicalHost(lib)(host).Some? && lib.path(path).Some?
    case ByHttp2 => true
    case ByRaw => true
  }

  lemma CanonicaliseKeeps(f: Canonicaliser, values: seq<string>, v: string)
    requires v in values && f(v).Some?
    ensures f(v).value in Canonicalise(f, values)
  {
    CollectIsDistinct(f, values);
    SortGivesListing(Collect(f, values));
    assert f(v).value in Elems(Collect(f, values));
  }

  lemma CanonicaliseNothing(f: Canonicaliser)
    ensures Canonicalise(f, []) == []
  {
  }

  /** Two routes that both match a lasting selector are still in conflict one canonicalisation later. */
  lemma ConflictLasts(lib: Library, a: Route, b: Route, sel: Selector)
    requires Lasting(lib, sel) && Matches(a, sel) && Matches(b, sel)
    ensures !Compatible(CanonicalRoute(lib, a), CanonicalRoute(lib, b))
  {
    match sel {
      case BySni(name) =>
        CanonicaliseKeeps(CanonicalString(lib), a.sni, name);
        CanonicaliseKeeps(CanonicalString(lib), b.sni, name);
      case ByHttp(host, path) =>
        CanonicaliseKeeps(lib.path, a.paths, path);
        CanonicaliseKeeps(lib.path, b.paths, path);
        CanonicaliseNothing(CanonicalHost(lib));
        if a.hosts != [] && b.hosts != [] {
          CanonicaliseKeeps(CanonicalHost(lib), a.hosts, host);
          CanonicaliseKeeps(CanonicalHost(lib), b.hosts, host);
        }
      case ByHttp2 =>
      case ByRaw =>
    }
  }

  lemma StartedRoutes(lib: Library, g: Group, sel: Selector)
    requires Started(lib, g) && Lasting(lib, sel)
    ensures DistinctIds(Canonical(lib, g)) && !TwoMatch(Canonical(lib, g), sel)
  {
    var rs := Canonical(lib, g);
    var cs := CanonicalRoutes(lib, rs);
    forall i, j | 0 <= i < j < |rs| ensures rs[i].id != rs[j].id && !(Matches(rs[i], sel) && Matches(rs[j], sel)) {
      assert Compatible(cs[i], cs[j]);
      if Matches(rs[i], sel) && Matches(rs[j], sel) {
        ConflictLasts(lib, rs[i], rs[j], sel);
      }
    }
  }

  // ---------------------------------------------------------------- the order of listing

  /** Routes with distinct ids sort to one sequence, whatever order they come in. */
  lemma SortByIdIsUnique(rs: seq<Route>, ps: seq<Route>)
    requires DistinctIds(rs) && multiset(rs) == multiset(ps)
    ensures SortById(rs) == SortById(ps)
  {
    var a, b := SortById(rs), SortById(ps);
    SortByIdPermutes(rs);
    SortByIdPermutes(ps);
    SortByIdSortsIds(rs);
    SortByIdSortsIds(ps);
    MapPermutes(IdOf(), rs, ps);
    SortForgetsOrder(Map(IdOf(), rs), Map(IdOf(), ps));
    assert Map(IdOf(), a) == Map(IdOf(), b);
    forall i | 0 <= i < |a| ensures a[i] == b[i] {
      assert Map(IdOf(), a)[i] == Map(IdOf(), b)[i];
      assert a[i] in multiset(a) && b[i] in multiset(b);
      SameIdSameRoute(rs, a[i], b[i]);
    }
  }

  lemma SameIdSameRoute(rs: seq<Route>, a: Route, b: Route)
    requires DistinctIds(rs) && a in multiset(rs) && b in multiset(rs) && a.id == b.id
    ensures a == b
  {
    var i :| 0 <= i < |rs| && rs[i] == a;
    var j :| 0 <= j < |rs| && rs[j] == b;
    assert i == j;
  }

  lemma StartedIds(lib: Library, g: Group)
    requires Started(lib, g)
    ensures DistinctIds(Canonical(lib, g))
  {
    var rs := Canonical(lib, g);
    var cs := CanonicalRoutes(lib, rs);
    forall i, j | 0 <= i < j < |rs| ensures rs[i].id != rs[j].id {
      assert Compatible(cs[i], cs[j]);
    }
  }

  lemma DistinctIdsPermute(rs: seq<Route>, ps: seq<Route>)
    requires DistinctIds(rs) && multiset(rs) == multiset(ps)
    ensures DistinctIds(ps)
  {
    forall i, j | 0 <= i < j < |ps| ensures ps[i].id != ps[j].id {
      assert ps[i] in multiset(ps) && ps[j] in multiset(ps);
      if ps[i].id == ps[j].id {
        SameIdSameRoute(rs, ps[i], ps[j]);
        OneOccurrence(ps, ps[i], i, j);
        NoRepeats(rs, ps[i]);
      }
    }
  }

  /** However a running group lists its routes, selection runs over the same sequence. */
  lemma RelistingChangesNothing(lib: Library, g: Group, listed: seq<Route>)
    requires Started(lib, g) && multiset(listed) == multiset(g.routes)
    ensures Canonical(lib, g.(routes := listed)) == Canonical(lib, g)
  {
    var rs, ps := CanonicalRoutes(lib, g.routes), CanonicalRoutes(lib, listed);
    StartedIds(lib, g);
    SortByIdPermutes(rs);
    DistinctIdsPermute(Canonical(lib, g), rs);
    MapPermutes(Canonically(lib), listed, g.routes);
    SortByIdIsUnique(rs, ps);
  }

  lemma AnswerIsUnique(rs: seq<Route>, sel: Selector, r: Result<Route, SelectError>, s: Result<Route, SelectError>)
    requires Answer(rs, sel, r) && Answer(rs, sel, s)
    ensures r == s
  {
    if r.Ok? && s.Ok? {
      var i :| 0 <= i < |rs| && rs[i] == r.value && Matches(r.value, sel)
               && forall j | 0 <= j < i :: !Matches(rs[j], sel);
      var k :| 0 <= k < |rs| && rs[k] == s.value && Matches(s.value, sel)
               && forall j | 0 <= j < k :: !Matches(rs[j], sel);
      assert i == k;
    }
  }

  /**
    A running group answers every connection, whatever its names, as any relisting of its routes
    would; and never with an ambiguity, unless an HTTP name of the connection has no canonical form.
  */
  lemma RunningGroupIsUnambiguous(lib: Library, g: Group, listed: seq<Route>, c: Classification,
                                  r: Result<Route, SelectError>, s: Result<Route, SelectError>)
    requires Started(lib, g) && multiset(listed) == multiset(g.routes)
    requires Selected(lib, g, c, r) && Selected(lib, g.(routes := listed), c, s)
    ensures r == s
    ensures !c.Http1? || (SelectorOf(lib, c).Ok? && Lasting(lib, SelectorOf(lib, c).value)) ==> r != Err(Ambiguous)
  {
    RelistingChangesNothing(lib, g, listed);
    SelectedIsUnique(lib, Canonical(lib, g), c, r, s);
    if SelectorOf(lib, c).Ok? && Lasting(lib, SelectorOf(lib, c).value) {
      StartedRoutes(lib, g, SelectorOf(lib, c).value);
      OneMatchIsClear(lib, Canonical(lib, g), c, r);
    } else if !c.Http1? {
      OnlyHttpIsAmbiguous(lib, Canonical(lib, g), c, r);
    }
  }

  lemma SelectedIsUnique(lib: Library, rs: seq<Route>, c: Classification, r: Result<Route, SelectError>,
                         s: Result<Route, SelectError>)
    requires SelectedFrom(lib, rs, c, r) && SelectedFrom(lib, rs, c, s)
    ensures r == s
  {
    if SelectorOf(lib, c).Ok? {
      AnswerIsUnique(rs, SelectorOf(lib, c).value, r, s);
    }
  }

  lemma OneMatchIsClear(lib: Library, rs: seq<Route>, c: Classification, r: Result<Route, SelectError>)
    requires SelectedFrom(lib, rs, c, r) && SelectorOf(lib, c).Ok? && !TwoMatch(rs, SelectorOf(lib, c).value)
    ensures r != Err(Ambiguous)
  {
  }

  lemma OnlyHttpIsAmbiguous(lib: Library, rs: seq<Route>, c: Classification, r: Result<Route, SelectError>)
    requires SelectedFrom(lib, rs, c, r) && !c.Http1?
    ensures r != Err(Ambiguous)
  {
  }

  // ---------------------------------------------------------------- when a group is never ambiguous

  lemma CanonicalHostIsAHost(lib: Library, r: Route, h: string) returns (v: string)
    requires h in CanonicalRoute(lib, r).hosts
    ensures v in r.hosts && lib.host(v) == Some(h)
  {
    var f := CanonicalHost(lib);
    CollectIsDistinct(f, r.hosts);
    SortGivesListing(Collect(f, r.hosts));
    assert h in Elems(Canonicalise(f, r.hosts));
    v :| v in r.hosts && f(v) == Some(h);
  }

  /** Every host of these routes is the normal form of one of the given hosts. */
  ghost predicate HostsFrom(lib: Library, rs: seq<Route>, from: string -> bool) {
    forall i, h | 0 <= i < |rs| && h in rs[i].hosts :: NormalForm(lib, from, h)
  }

  ghost predicate NormalForm(lib: Library, from: string -> bool, h: string) {
    exists v :: from(v) && lib.host(v) == Some(h)
  }

  /** All names, and those that normalisation returns. */
  function AnyHost(): string -> bool {
    (v: string) => true
  }

  ghost function NormalHosts(lib: Library): string -> bool {
    (v: string) => exists raw: string :: lib.host(raw) == Some(v)
  }

  lemma CanonicalHostsAreHosts(lib: Library, g: Group, from: string -> bool)
    requires forall i, h | 0 <= i < |g.routes| && h in g.routes[i].hosts :: from(h)
    ensures HostsFrom(lib, Canonical(lib, g), from)
  {
    var cs := CanonicalRoutes(lib, g.routes);
    SortByIdPermutes(cs);
    forall k, h | 0 <= k < |cs| && h in cs[k].hosts ensures NormalForm(lib, from, h) {
      var v := HostOfListed(lib, g.routes, k, h);
    }
    HostsPermute(lib, cs, SortById(cs), from);
  }

  lemma HostsPermute(lib: Library, cs: seq<Route>, rs: seq<Route>, from: string -> bool)
    requires multiset(cs) == multiset(rs) && HostsFrom(lib, cs, from)
    ensures HostsFrom(lib, rs, from)
  {
    forall i, h | 0 <= i < |rs| && h in rs[i].hosts ensures NormalForm(lib, from, h) {
      assert rs[i] in multiset(rs) && rs[i] in multiset(cs);
      var k :| 0 <= k < |cs| && cs[k] == rs[i];
    }
  }

  lemma HostOfListed(lib: Library, routes: seq<Route>, k: nat, h: string) returns (v: string)
    requires k < |routes| && h in CanonicalRoutes(lib, routes)[k].hosts
    ensures v in routes[k].hosts && lib.host(v) == Some(h)
  {
    v := CanonicalHostIsAHost(lib, routes[k], h);
  }

  /** A request, for one of the given hosts, that both of two overlapping routes want. */
  lemma OverlapGivesRequest(lib: Library, rs: seq<Route>, from: string -> bool, i: nat, j: nat)
    returns (c: Classification)
    requires lib.host("") == Some("") && from("") && HostsFrom(lib, rs, from)
    requires i < j < |rs| && HttpOverlap(rs[i], rs[j])
    ensures c.Http1? && from(c.host) && SelectorOf(lib, c).Ok? && TwoMatch(rs, SelectorOf(lib, c).value)
  {
    var a, b := rs[i], rs[j];
    var p :| p in a.paths && p in b.paths;
    var v := "";
    if a.hosts != [] && b.hosts != [] {
      var h :| h in a.hosts && h in b.hosts;
      assert NormalForm(lib, from, h);
      v :| from(v) && lib.host(v) == Some(h);
    } else if a.hosts != [] {
      assert a.hosts[0] in rs[i].hosts && NormalForm(lib, from, a.hosts[0]);
      v :| from(v) && lib.host(v) == Some(a.hosts[0]);
    } else if b.hosts != [] {
      assert b.hosts[0] in rs[j].hosts && NormalForm(lib, from, b.hosts[0]);
      v :| from(v) && lib.host(v) == Some(b.hosts[0]);
    }
    c := Http1(v, p);
    var sel := ByHttp(lib.host(v).value, p);
    assert Matches(rs[i], sel) && Matches(rs[j], sel);
  }

  lemma NoOverlapNoSecondMatch(rs: seq<Route>, host: string, path: string)
    requires NoHttpOverlap(rs)
    ensures !TwoMatch(rs, ByHttp(host, path))
  {
    forall i, j | 0 <= i < j < |rs|
      ensures !(Matches(rs[i], ByHttp(host, path)) && Matches(rs[j], ByHttp(host, path)))
    {
      assert !HttpOverlap(rs[i], rs[j]);
      if rs[i].kind == HTTP1 && rs[j].kind == HTTP1 {
        OverlapIsExact(rs[i], rs[j]);
      }
    }
  }

  lemma NoOverlapIsClear(lib: Library, rs: seq<Route>, c: Classification, r: Result<Route, SelectError>)
    requires NoHttpOverlap(rs) && SelectedFrom(lib, rs, c, r)
    ensures r != Err(Ambiguous)
  {
    if c.Http1? && SelectorOf(lib, c).Ok? {
      NoOverlapNoSecondMatch(rs, SelectorOf(lib, c).value.host, c.path);
    }
  }

  /** No connection, for one of the given hosts if it is HTTP/1, gets an ambiguity from these routes. */
  ghost predicate NeverAmbiguousFrom(lib: Library, rs: seq<Route>, from: string -> bool) {
    forall c: Classification, r | (c.Http1? ==> from(c.host)) && SelectedFrom(lib, rs, c, r) :: r != Err(Ambiguous)
  }

  lemma NeverAmbiguousFromIff(lib: Library, rs: seq<Route>, from: string -> bool)
    requires lib.host("") == Some("") && from("") && HostsFrom(lib, rs, from)
    ensures NeverAmbiguousFrom(lib, rs, from) <==> NoHttpOverlap(rs)
  {
    if NoHttpOverlap(rs) {
      forall c: Classification, r | (c.Http1? ==> from(c.host)) && SelectedFrom(lib, rs, c, r)
        ensures r != Err(Ambiguous)
      {
        NoOverlapIsClear(lib, rs, c, r);
      }
    } else {
      var i, j :| 0 <= i < j < |rs| && HttpOverlap(rs[i], rs[j]);
      var c := OverlapGivesRequest(lib, rs, from, i, j);
      TwoMatchesAnswer(lib, rs, c);
    }
  }

  /** The group answers no connection for one of the given hosts with an ambiguity. */
  ghost predicate NeverAmbiguous(lib: Library, g: Group, from: string -> bool) {
    forall c: Classification, r | (c.Http1? ==> from(c.host)) && Selected(lib, g, c, r) :: r != Err(Ambiguous)
  }

  lemma NeverAmbiguousOver(lib: Library, g: Group, rs: seq<Route>, from: string -> bool)
    requires Canonical(lib, g) == rs
    ensures NeverAmbiguous(lib, g, from) <==> NeverAmbiguousFrom(lib, rs, from)
  {
    if NeverAmbiguous(lib, g, from) {
      forall c: Classification, r | (c.Http1? ==> from(c.host)) && SelectedFrom(lib, rs, c, r)
        ensures r != Err(Ambiguous)
      {
        assert Selected(lib, g, c, r);
      }
    }
  }

  /** Any group, validated or not, is never ambiguous exactly when no two HTTP routes it runs overlap. */
  lemma NeverAmbiguousIff(lib: Library, g: Group)
    requires lib.host("") == Some("")
    ensures NeverAmbiguous(lib, g, AnyHost()) <==> NoHttpOverlap(Canonical(lib, g))
  {
    CanonicalHostsAreHosts(lib, g, AnyHost());
    NeverAmbiguousFromIff(lib, Canonical(lib, g), AnyHost());
    NeverAmbiguousOver(lib, g, Canonical(lib, g), AnyHost());
  }

  /**
    The same for the requests that can arrive: their host has been normalised once, as have the routes
    that run, so no overlap is out of a client's reach.
  */
  lemma NeverAmbiguousToRequestsIff(lib: Library, given: Group)
    requires lib.host("") == Some("")
    ensures var g := CanonicalGroup(lib, given);
      NeverAmbiguous(lib, g, NormalHosts(lib)) <==> NoHttpOverlap(Canonical(lib, g))
  {
    var g := CanonicalGroup(lib, given);
    CanonicalHostsAreHosts(lib, given, AnyHost());
    RunningHostsAreNormal(lib, g.routes);
    CanonicalHostsAreHosts(lib, g, NormalHosts(lib));
    NeverAmbiguousFromIff(lib, Canonical(lib, g), NormalHosts(lib));
    NeverAmbiguousOver(lib, g, Canonical(lib, g), NormalHosts(lib));
  }

  lemma RunningHostsAreNormal(lib: Library, rs: seq<Route>)
    requires HostsFrom(lib, rs, AnyHost())
    ensures forall i, h | 0 <= i < |rs| && h in rs[i].hosts :: NormalHosts(lib)(h)
  {
    forall i, h | 0 <= i < |rs| && h in rs[i].hosts ensures NormalHosts(lib)(h) {
      assert NormalForm(lib, AnyHost(), h);
      var v :| AnyHost()(v) && lib.host(v) == Some(h);
    }
  }

  lemma TwoMatchesAnswer(lib: Library, rs: seq<Route>, c: Classification)
    requires c.Http1? && SelectorOf(lib, c).Ok? && TwoMatch(rs, SelectorOf(lib, c).value)
    ensures SelectedFrom(lib, rs, c, Err(Ambiguous))
  {
    assert SomeMatch(rs, SelectorOf(lib, c).value);
  }

  // ---------------------------------------------------------------- a name that does not last

  lemma CanonicaliseTwo(f: Canonicaliser, x: string, y: string)
    ensures Collect(f, [x, y]) ==
      match (f(x), f(y)) {
        case (None, None) => []
        case (None, Some(b)) => [b]
        case (Some(a), None) => [a]
        case (Some(a), Some(b)) => if a == b then [a] else [a, b]
      }
  {
    assert [x, y][..1] == [x] && [x][..0] == [];
    assert Collect(f, [x]) == match f(x) { case None => [] case Some(a) => [a] };
  }

  lemma SortsInOrder(a: string, b: string)
    requires Below(a, b)
    ensures SortStrings([a, b]) == [a, b] && SortStrings([b]) == [b]
  {
    BelowIsStrict(a, b);
    assert [b][1..] == [] && [a, b][1..] == [b];
    assert SortStrings([b]) == [b];
    assert SortStrings([a, b]) == [a, b];
  }

  /** A library that leaves names as they are. */
  function PlainLibrary(): Library {
    Library(v => Some(v), v => Some(v), v => Some(v), v => v, v => v == "", v => true, v => true)
  }

  function DottedRoute(id: string, sni: seq<string>): Route {
    Route(id, id, "tcp", "tls", TLS_SNI, sni, [], [])
  }

  /** Two TLS routes that share the name "..", which canonicalises to "." and then to nothing. */
  function DottedGroup(): Group {
    Group("g", "", 443, 1000, 1024, 1, [DottedRoute("a", ["..", "a"]), DottedRoute("b", ["..", "b"])])
  }

  lemma DottedCanonical(id: string, x: string)
    requires x == "a" || x == "b"
    ensures CanonicalRoute(PlainLibrary(), DottedRoute(id, ["..", x])) == DottedRoute(id, [".", x])
    ensures CanonicalRoute(PlainLibrary(), DottedRoute(id, [".", x])) == DottedRoute(id, [x])
  {
    var f := CanonicalString(PlainLibrary());
    assert ".."[..1] == "." && "."[..0] == "";
    assert f("..") == Some(".") && f(".") == None && f(x) == Some(x);
    CanonicaliseTwo(f, "..", x);
    CanonicaliseTwo(f, ".", x);
    SortsInOrder(".", x);
  }

  lemma SortTwoRoutes(a: Route, b: Route)
    requires Below(a.id, b.id)
    ensures SortById([a, b]) == [a, b]
  {
    BelowIsStrict(a.id, b.id);
    assert [a, b][1..] == [b] && [b][1..] == [];
    assert SortById([b]) == [b];
    assert SortById([a, b]) == [a, b];
  }

  lemma DottedRoutes()
    ensures Canonical(PlainLibrary(), DottedGroup()) == [DottedRoute("a", [".", "a"]), DottedRoute("b", [".", "b"])]
  {
    DottedCanonical("a", "a");
    DottedCanonical("b", "b");
    var a, b := DottedRoute("a", [".", "a"]), DottedRoute("b", [".", "b"]);
    assert CanonicalRoutes(PlainLibrary(), DottedGroup().routes) == [a, b];
    SortTwoRoutes(a, b);
  }

  lemma DotDoesNotLast()
    ensures !Lasting(PlainLibrary(), BySni("."))
  {
    assert "."[..0] == "";
  }

  /** Such a group passes Start, although two of the routes it runs match one name. */
  lemma DotsEscapeValidation()
    ensures var lib, g := PlainLibrary(), DottedGroup();
      Started(lib, g) && TwoMatch(Canonical(lib, g), BySni(".")) && !Lasting(lib, BySni("."))
  {
    DottedRoutes();
    BothMatchDot(DottedRoute("a", [".", "a"]), DottedRoute("b", [".", "b"]));
    DottedStarts();
    DotDoesNotLast();
  }

  lemma BothMatchDot(a: Route, b: Route)
    requires a.kind == b.kind == TLS_SNI && "." in a.sni && "." in b.sni
    ensures TwoMatch([a, b], BySni("."))
  {
    var rs := [a, b];
    assert Matches(rs[0], BySni(".")) && Matches(rs[1], BySni("."));
  }

  lemma {:induction false} NoHttpClaims(lib: Library, rs: seq<Route>)
    requires forall r <- rs :: r.kind != HTTP1
    ensures Claims(ByHttpKey(lib), rs) == []
  {
    if rs != [] {
      assert rs[|rs| - 1] in rs;
      NoHttpClaims(lib, rs[..|rs| - 1]);
    }
  }

  lemma DottedRoutesAreOk()
    ensures var c, d := DottedRoute("a", ["a"]), DottedRoute("b", ["b"]);
      Compatible(c, d) && RouteOk(PlainLibrary(), c) && RouteOk(PlainLibrary(), d)
  {
    assert '*' !in "a" && '*' !in "b";
  }

  lemma TwoOkRoutes(lib: Library, g: Group, c: Route, d: Route)
    requires GroupHeaderOk(lib, g) && CanonicalRoutes(lib, g.routes) == [c, d]
    requires RouteOk(lib, c) && RouteOk(lib, d) && Compatible(c, d) && Distinct(Claims(ByHttpKey(lib), [c, d]))
    ensures GroupOk(lib, g)
  {
    PairIsCompatible(c, d);
    BothOk(lib, c, d);
  }

  lemma PairIsCompatible(c: Route, d: Route)
    requires Compatible(c, d)
    ensures PairwiseCompatible([c, d])
  {
    forall i, j | 0 <= i < j < 2 ensures Compatible([c, d][i], [c, d][j]) {
      assert i == 0 && j == 1;
    }
  }

  lemma BothOk(lib: Library, c: Route, d: Route)
    requires RouteOk(lib, c) && RouteOk(lib, d)
    ensures forall r <- [c, d] :: RouteOk(lib, r)
  {
    forall r <- [c, d] ensures RouteOk(lib, r) {
      assert r == c || r == d;
    }
  }

  lemma CanonicalPair(lib: Library, a: Route, b: Route)
    ensures CanonicalRoutes(lib, [a, b]) == [CanonicalRoute(lib, a), CanonicalRoute(lib, b)]
  {
  }

  lemma DottedHeaderOk()
    requires |Canonical(PlainLibrary(), DottedGroup())| == 2
    ensures GroupHeaderOk(PlainLibrary(), CanonicalGroup(PlainLibrary(), DottedGroup()))
  {
  }

  lemma DottedStarts()
    requires Canonical(PlainLibrary(), DottedGroup()) == [DottedRoute("a", [".", "a"]), DottedRoute("b", [".", "b"])]
    ensures Started(PlainLibrary(), DottedGroup())
  {
    var lib := PlainLibrary();
    DottedCanonical("a", "a");
    DottedCanonical("b", "b");
    var g, c, d := CanonicalGroup(lib, DottedGroup()), DottedRoute("a", ["a"]), DottedRoute("b", ["b"]);
    CanonicalPair(lib, DottedRoute("a", [".", "a"]), DottedRoute("b", [".", "b"]));
    DottedHeaderOk();
    DottedRoutesAreOk();
    NoHttpClaims(lib, [c, d]);
    TwoOkRoutes(lib, g, c, d);
  }

  // ---------------------------------------------------------------- an HTTP name that does not last

  /** Two trailing dots go, and nothing may not be left. */
  function Undot(v: string): Option<string> {
    if v == "" then Some("")
    else
      var w := StripDot(StripDot(v));
      if w == "" then None else Some(w)
  }

  function DottedHosts(): Library {
    PlainLibrary().(host := Undot)
  }

  function DottedHttp(id: string, hosts: seq<string>): Route {
    Route(id, id, "ws", "none", HTTP1, [], hosts, ["/"])
  }

  function TwoDottedHttp(shared: string): Group {
    Group("g", "", 80, 1000, 1024, 1, [DottedHttp("a", [shared, "a"]), DottedHttp("b", [shared, "b"])])
  }

  /** Two HTTP routes that share the host ".....", which canonicalises to "...", then to "." and then to nothing. */
  function GivenHttpGroup(): Group {
    TwoDottedHttp(".....")
  }

  /** What runs: the canonical form of these routes. */
  function DottedHttpGroup(): Group {
    TwoDottedHttp("...")
  }

  lemma Undots()
    ensures Undot(".....") == Some("...") && Undot("...") == Some(".") && Undot(".") == None
    ensures Undot("a") == Some("a") && Undot("b") == Some("b")
  {
    assert "....."[..4] == "...." && "...."[..3] == "..." && "..."[..2] == "..";
    assert ".."[..1] == "." && "."[..0] == "";
  }

  lemma DottedHttpCanonical(id: string, x: string)
    requires x == "a" || x == "b"
    ensures CanonicalRoute(DottedHosts(), DottedHttp(id, [".....", x])) == DottedHttp(id, ["...", x])
    ensures CanonicalRoute(DottedHosts(), DottedHttp(id, ["...", x])) == DottedHttp(id, [".", x])
    ensures CanonicalRoute(DottedHosts(), DottedHttp(id, [".", x])) == DottedHttp(id, [x])
  {
    var f := CanonicalHost(DottedHosts());
    Undots();
    assert f(".....") == Some("...") && f("...") == Some(".") && f(".") == None && f(x) == Some(x);
    CanonicaliseTwo(f, ".....", x);
    CanonicaliseTwo(f, "...", x);
    CanonicaliseTwo(f, ".", x);
    SortsInOrder(".", x);
    SortsInOrder("...", x);
    CanonicaliseOne(DottedHosts().path, "/");
    CanonicaliseNothing(CanonicalString(DottedHosts()));
  }

  lemma CanonicaliseOne(f: Canonicaliser, x: string)
    requires f(x) == Some(x)
    ensures Canonicalise(f, [x]) == [x]
  {
    assert [x][..0] == [] && [x][1..] == [];
    assert Collect(f, [x]) == [x];
    assert SortStrings([x]) == [x];
  }

  lemma DottedHttpRoutes()
    ensures Canonical(DottedHosts(), DottedHttpGroup()) == [DottedHttp("a", [".", "a"]), DottedHttp("b", [".", "b"])]
  {
    DottedHttpCanonical("a", "a");
    DottedHttpCanonical("b", "b");
    CanonicalPair(DottedHosts(), DottedHttp("a", ["...", "a"]), DottedHttp("b", ["...", "b"]));
    SortTwoRoutes(DottedHttp("a", [".", "a"]), DottedHttp("b", [".", "b"]));
  }

  lemma DottedHttpKeys(id: string, x: string)
    requires x == "a" || x == "b"
    ensures ByHttpKey(DottedHosts())(DottedHttp(id, [x])) == [x + "\0" + "/"]
  {
    var lib := DottedHosts();
    var f := CanonicalString(lib);
    assert f(x) == Some(x);
    CanonicaliseOne(f, x);
    assert HostVariants(lib, [x]) == [x];
    assert ["/"][..0] == [] && [x][..0] == [];
    assert KeysOfHost(x, ["/"]) == [x + "\0" + "/"];
    assert KeysOfHosts([x], ["/"]) == [x + "\0" + "/"];
  }

  lemma TwoClaims(f: Claim, c: Route, d: Route, x: string, y: string)
    requires f(c) == [x] && f(d) == [y] && x != y
    ensures Distinct(Claims(f, [c, d]))
  {
    assert [c, d][..1] == [c] && [c][..0] == [];
    assert Claims(f, [c]) == [x];
    assert Claims(f, [c, d]) == [x, y];
  }

  lemma DottedHttpClaims()
    ensures Distinct(Claims(ByHttpKey(DottedHosts()), [DottedHttp("a", ["a"]), DottedHttp("b", ["b"])]))
  {
    DottedHttpKeys("a", "a");
    DottedHttpKeys("b", "b");
    assert ("a" + "\0" + "/")[0] == 'a' && ("b" + "\0" + "/")[0] == 'b';
    TwoClaims(ByHttpKey(DottedHosts()), DottedHttp("a", ["a"]), DottedHttp("b", ["b"]), "a" + "\0" + "/",
              "b" + "\0" + "/");
  }

  lemma DottedHttpRoutesAreOk()
    ensures var c, d := DottedHttp("a", ["a"]), DottedHttp("b", ["b"]);
      Compatible(c, d) && RouteOk(DottedHosts(), c) && RouteOk(DottedHosts(), d)
  {
    Undots();
  }

  lemma DottedHttpStarts()
    ensures Started(DottedHosts(), DottedHttpGroup())
  {
    var lib := DottedHosts();
    var g, c, d := CanonicalGroup(lib, DottedHttpGroup()), DottedHttp("a", ["a"]), DottedHttp("b", ["b"]);
    DottedHttpRoutes();
    DottedHttpCanonical("a", "a");
    DottedHttpCanonical("b", "b");
    CanonicalPair(lib, DottedHttp("a", [".", "a"]), DottedHttp("b", [".", "b"]));
    DottedHttpRoutesAreOk();
    DottedHttpClaims();
    DottedHttpHeaderOk();
    TwoOkRoutes(lib, g, c, d);
  }

  lemma DottedHttpHeaderOk()
    requires |Canonical(DottedHosts(), DottedHttpGroup())| == 2
    ensures GroupHeaderOk(DottedHosts(), CanonicalGroup(DottedHosts(), DottedHttpGroup()))
  {
  }

  lemma GivenRuns()
    ensures CanonicalGroup(DottedHosts(), GivenHttpGroup()) == DottedHttpGroup()
  {
    DottedHttpCanonical("a", "a");
    DottedHttpCanonical("b", "b");
    CanonicalPair(DottedHosts(), DottedHttp("a", [".....", "a"]), DottedHttp("b", [".....", "b"]));
    SortTwoRoutes(DottedHttp("a", ["...", "a"]), DottedHttp("b", ["...", "b"]));
  }

  /**
    Given such routes, Start accepts them, and the group that runs answers a request with the header
    "Host: ....." (classified as the host "...") with an ambiguity.
  */
  lemma DottedHostIsAmbiguous()
    ensures var lib, given := DottedHosts(), GivenHttpGroup();
      && Started(lib, CanonicalGroup(lib, given)) && lib.host(".....").Some?
      && Selected(lib, CanonicalGroup(lib, given), Http1(lib.host(".....").value, "/"), Err(Ambiguous))
  {
    var lib, g, c := DottedHosts(), DottedHttpGroup(), Http1("...", "/");
    Undots();
    GivenRuns();
    DottedHttpStarts();
    DottedAnswer(lib, g, c);
  }

  lemma DottedAnswer(lib: Library, g: Group, c: Classification)
    requires lib == DottedHosts() && g == DottedHttpGroup() && c == Http1("...", "/")
    ensures Selected(lib, g, c, Err(Ambiguous))
  {
    DottedHttpRoutes();
    Undots();
    BothMatchDottedHost(DottedHttp("a", [".", "a"]), DottedHttp("b", [".", "b"]));
    TwoMatchesAnswer(lib, [DottedHttp("a", [".", "a"]), DottedHttp("b", [".", "b"])], c);
  }

  lemma BothMatchDottedHost(a: Route, b: Route)
    requires a.kind == b.kind == HTTP1 && "." in a.hosts && "." in b.hosts && "/" in a.paths && "/" in b.paths
    ensures TwoMatch([a, b], ByHttp(".", "/"))
  {
    var rs := [a, b];
    assert Matches(rs[0], ByHttp(".", "/")) && Matches(rs[1], ByHttp(".", "/"));
  }
}
