/**
  Routes of a shared public port: canonical form and selection
  (internal/frontmux/plan.go and selectRoute in internal/frontmux/classifier.go).
*/
module Routes {
  import opened Wrappers
  import opened Sequences
  import opened Ordering

  const TLS_SNI := "tls-sni"
  const HTTP1 := "http1"
  const HTTP2 := "http2-preface"
  const RAW := "raw-catch-all"

  datatype Route = Route(
    id: string, backend: string, network: string, security: string, kind: string,
    sni: seq<string>, hosts: seq<string>, paths: seq<string>)

  datatype Group = Group(
    id: string, listen: string, port: int, classificationMs: int, maxInspectBytes: int,
    maxConcurrentConns: int, routes: seq<Route>)

  /** IDNA, IP, URL and case handling stay opaque; None is an error. */
  datatype Library = Library(
    serverName: string -> Option<string>,   // NormalizeServerName
    host: string -> Option<string>,         // NormalizeHTTPHost
    path: string -> Option<string>,         // NormalizeHTTPPath
    fold: string -> string,                 // ToLower of TrimSpace
    blank: string -> bool,                  // TrimSpace leaves nothing
    loopback: string -> bool,               // host:port with a loopback IP literal and a port in range
    listen: string -> bool)                 // normalizeListen succeeds

  // ---------------------------------------------------------------- canonical form

  type Canonicaliser = string -> Option<string>

  function StripDot(v: string): string {
    if v != "" && v[|v| - 1] == '.' then v[..|v| - 1] else v
  }

  /** One trailing dot goes per pass, so a second pass may strip another. */
  function CanonicalString(lib: Library): Canonicaliser {
    v => var c := StripDot(lib.fold(v)); if c == "" then None else Some(c)
  }

  function CanonicalHost(lib: Library): Canonicaliser {
    v => if lib.host(v) == Some("") then None else lib.host(v)
  }

  /** The canonical values, first occurrences only. */
  function Collect(f: Canonicaliser, values: seq<string>): seq<string> {
    if values == [] then []
    else
      var front := Collect(f, values[..|values| - 1]);
      match f(values[|values| - 1])
      case None => front
      case Some(c) => if c in front then front else front + [c]
  }

  function Canonicalise(f: Canonicaliser, values: seq<string>): seq<string> {
    SortStrings(Collect(f, values))
  }

  lemma {:induction false} CollectIsDistinct(f: Canonicaliser, values: seq<string>)
    ensures Distinct(Collect(f, values))
    ensures forall c :: c in Collect(f, values) <==> exists v :: v in values && f(v) == Some(c)
  {
    if values != [] {
      var front, last := values[..|values| - 1], values[|values| - 1];
      CollectIsDistinct(f, front);
      assert values == front + [last];
      forall c ensures c in Collect(f, values) <==> exists v :: v in values && f(v) == Some(c) {
        if c in Collect(f, front) {
          var v :| v in front && f(v) == Some(c);
          assert v in values;
        } else if f(last) == Some(c) {
          assert last in values;
        }
        if v :| v in values && f(v) == Some(c) && v != last {
          assert v in front;
        }
      }
    }
  }

  /** canonicalStrings, canonicalHosts and canonicalPaths share this loop. */
  method CanonicaliseAll(f: Canonicaliser, values: seq<string>) returns (out: seq<string>)
    ensures out == Canonicalise(f, values)
  {
    var seen: set<string> := {};
    out := [];
    for i := 0 to |values|
      invariant out == Collect(f, values[..i]) && seen == set x | x in out
    {
      assert values[..i + 1][..i] == values[..i];
      var c := f(values[i]);
      if c.Some? && c.value !in seen {
        seen := seen + {c.value};
        out := out + [c.value];
      }
    }
    assert values[..|values|] == values;
    out := SortStrings(out);
  }

  function CanonicalRoute(lib: Library, r: Route): Route {
    r.(sni := Canonicalise(CanonicalString(lib), r.sni),
       hosts := Canonicalise(CanonicalHost(lib), r.hosts),
       paths := Canonicalise(lib.path, r.paths))
  }

  function Canonically(lib: Library): Route -> Route {
    (r: Route) => CanonicalRoute(lib, r)
  }

  function CanonicalRoutes(lib: Library, routes: seq<Route>): seq<Route> {
    Map(Canonically(lib), routes)
  }

  function InsertById(r: Route, rs: seq<Route>): seq<Route> {
    if rs == [] || !Below(rs[0].id, r.id) then [r] + rs else [rs[0]] + InsertById(r, rs[1..])
  }

  function SortById(rs: seq<Route>): seq<Route> {
    if rs == [] then [] else InsertById(rs[0], SortById(rs[1..]))
  }

  lemma {:induction false} SortByIdPermutes(rs: seq<Route>)
    ensures multiset(SortById(rs)) == multiset(rs)
  {
    if rs != [] {
      SortByIdPermutes(rs[1..]);
      InsertPermutes(rs[0], SortById(rs[1..]));
      assert rs == [rs[0]] + rs[1..];
    }
  }

  lemma {:induction false} InsertPermutes(r: Route, rs: seq<Route>)
    ensures multiset(InsertById(r, rs)) == multiset{r} + multiset(rs)
  {
    if rs != [] && Below(rs[0].id, r.id) {
      InsertPermutes(r, rs[1..]);
      assert rs == [rs[0]] + rs[1..];
    }
  }

  function IdOf(): Route -> string {
    (r: Route) => r.id
  }

  lemma {:induction false} InsertionSortsIds(r: Route, rs: seq<Route>)
    ensures Map(IdOf(), InsertById(r, rs)) == Insert(r.id, Map(IdOf(), rs))
  {
    if rs != [] && Below(rs[0].id, r.id) {
      InsertionSortsIds(r, rs[1..]);
      assert Map(IdOf(), rs)[1..] == Map(IdOf(), rs[1..]);
    }
  }

  lemma {:induction false} SortByIdSortsIds(rs: seq<Route>)
    ensures Map(IdOf(), SortById(rs)) == SortStrings(Map(IdOf(), rs))
  {
    if rs != [] {
      SortByIdSortsIds(rs[1..]);
      InsertionSortsIds(rs[0], SortById(rs[1..]));
      assert Map(IdOf(), rs)[1..] == Map(IdOf(), rs[1..]);
    }
  }

  /** The routes selection runs over. */
  function Canonical(lib: Library, g: Group): seq<Route> {
    SortById(CanonicalRoutes(lib, g.routes))
  }

  /** They are the canonical routes, each as often as listed, in the order of their ids. */
  lemma CanonicalIsSorted(lib: Library, g: Group)
    ensures multiset(Canonical(lib, g)) == multiset(CanonicalRoutes(lib, g.routes))
    ensures Sorted(Map(IdOf(), Canonical(lib, g)))
  {
    var rs := CanonicalRoutes(lib, g.routes);
    SortByIdPermutes(rs);
    SortByIdSortsIds(rs);
    SortStringsSorts(Map(IdOf(), rs));
  }

  // ---------------------------------------------------------------- selection

  /** A classified connection, its names normalised. */
  datatype Selector = BySni(name: string) | ByHttp(host: string, path: string) | ByHttp2 | ByRaw

  predicate Matches(r: Route, sel: Selector) {
    match sel
    case BySni(name) => r.kind == TLS_SNI && name in r.sni
    case ByHttp(host, path) => r.kind == HTTP1 && path in r.paths && (r.hosts == [] || host in r.hosts)
    case ByHttp2 => r.kind == HTTP2
    case ByRaw => r.kind == RAW
  }

  datatype SelectError = BadName | NoSni | NoRoute | Ambiguous

  datatype Classification = Tls(sni: string) | Http1(host: string, path: string) | Http2 | Raw

  function SelectorOf(lib: Library, c: Classification): Result<Selector, SelectError> {
    match c
    case Tls(sni) =>
      (match lib.serverName(sni)
       case None => Err(BadName)
       case Some(name) => if name == "" then Err(NoSni) else Ok(BySni(name)))
    case Http1(host, path) =>
      (match lib.host(host)
       case None => Err(BadName)
       case Some(h) => Ok(ByHttp(h, path)))
    case Http2 => Ok(ByHttp2)
    case Raw => Ok(ByRaw)
  }

  ghost predicate SomeMatch(rs: seq<Route>, sel: Selector) {
    exists i :: 0 <= i < |rs| && Matches(rs[i], sel)
  }

  ghost predicate TwoMatch(rs: seq<Route>, sel: Selector) {
    exists i, j :: 0 <= i < j < |rs| && Matches(rs[i], sel) && Matches(rs[j], sel)
  }

  ghost predicate FirstMatch(rs: seq<Route>, sel: Selector, r: Route) {
    exists i :: 0 <= i < |rs| && rs[i] == r && Matches(r, sel) && forall j | 0 <= j < i :: !Matches(rs[j], sel)
  }

  /** A right answer over some routes: none, the first, or (for HTTP only) too many. */
  ghost predicate Answer(rs: seq<Route>, sel: Selector, r: Result<Route, SelectError>) {
    && (r == Err(NoRoute) <==> !SomeMatch(rs, sel))
    && (r == Err(Ambiguous) <==> sel.ByHttp? && TwoMatch(rs, sel))
    && (r.Ok? ==> FirstMatch(rs, sel, r.value))
    && (r.Err? ==> r.error.NoRoute? || r.error.Ambiguous?)
  }

  /** A right answer for a connection. */
  ghost predicate SelectedFrom(lib: Library, rs: seq<Route>, c: Classification, r: Result<Route, SelectError>) {
    match SelectorOf(lib, c)
    case Err(e) => r == Err(e)
    case Ok(sel) => Answer(rs, sel, r)
  }

  /** What selectRoute answers, on any group. */
  ghost predicate Selected(lib: Library, g: Group, c: Classification, r: Result<Route, SelectError>) {
    SelectedFrom(lib, Canonical(lib, g), c, r)
  }

  method SelectRoute(lib: Library, g: Group, c: Classification) returns (r: Result<Route, SelectError>)
    ensures Selected(lib, g, c, r)
  {
    var rs := Canonical(lib, g);
    var selector := SelectorOf(lib, c);
    if selector.Err? {
      return Err(selector.error);
    }
    var sel := selector.value;
    if sel.ByHttp? {
      r := SelectHttp(rs, sel);
    } else {
      r := SelectFirst(rs, sel);
    }
  }

  method SelectFirst(rs: seq<Route>, sel: Selector) returns (r: Result<Route, SelectError>)
    ensures r == Err(NoRoute) <==> !SomeMatch(rs, sel)
    ensures r.Ok? ==> FirstMatch(rs, sel, r.value)
    ensures r.Err? ==> r.error.NoRoute?
  {
    for i := 0 to |rs|
      invariant forall j | 0 <= j < i :: !Matches(rs[j], sel)
    {
      if Matches(rs[i], sel) {
        return Ok(rs[i]);
      }
    }
    return Err(NoRoute);
  }

  method SelectHttp(rs: seq<Route>, sel: Selector) returns (r: Result<Route, SelectError>)
    ensures r == Err(NoRoute) <==> !SomeMatch(rs, sel)
    ensures r == Err(Ambiguous) <==> TwoMatch(rs, sel)
    ensures r.Ok? ==> FirstMatch(rs, sel, r.value)
    ensures r.Err? ==> r.error.NoRoute? || r.error.Ambiguous?
  {
    var matched: Option<nat> := None;
    for i := 0 to |rs|
      invariant matched.Some? ==> matched.value < i && Matches(rs[matched.value], sel)
      invariant forall j | 0 <= j < i && matched != Some(j) :: !Matches(rs[j], sel)
    {
      if !Matches(rs[i], sel) {
        continue;
      }
      if matched.Some? {
        return Err(Ambiguous);
      }
      matched := Some(i);
    }
    return if matched.None? then Err(NoRoute) else Ok(rs[matched.value]);
  }
}
