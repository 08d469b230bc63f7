/**
  Traffic other than TLS from its first byte to its backend (handleConnection in
  internal/frontmux/manager.go): HTTP/2, HTTP/1 and raw clients of a started group reach the route meant for
  them, however their bytes are read and the routes are listed, exactly when they show what they are early
  enough.
*/
module RoutedTraffic {
  import opened Wrappers
  import opened TlsHello
  import Reads = Classifier
  import opened PlainClassification
  import opened Routes
  import opened RunningRoutes
  import opened Connections

  lemma OutcomesLead(f: Front, rs: seq<Route>, s: Bytes, tail: Bytes, c: Reads.Classification, route: Route,
                     ending: Reads.Ending, hasRaw: bool, max: int)
    requires DecidesFirst(f.wire, s, tail, hasRaw, max) && s != []
    requires Reads.Inspect(f.wire, s, hasRaw, max) == Reads.Accept(c)
    requires RouteOf(f, rs, Reads.Decided(c)) == Some(route)
    ensures (forall schedule ::
               RouteOf(f, rs, Reads.Verdict(f.wire, s + tail, schedule, ending, hasRaw, max)) == Some(route))
       <==> |s| + |tail| < max || |s| + 4096 <= max
  {
    DecidedIff(f.wire, s, tail, ending, hasRaw, max);
    if |s| + |tail| >= max && |s| + 4096 > max {
      LateCanExceed(f.wire, s, tail, ending, hasRaw, max);
      var schedule :| Reads.Verdict(f.wire, s + tail, schedule, ending, hasRaw, max) == Reads.Exceeded;
      assert RouteOf(f, rs, Reads.Verdict(f.wire, s + tail, schedule, ending, hasRaw, max)) == None;
    }
  }

  lemma Reaches(f: Front, g: Group, listed: seq<Route>, s: Bytes, tail: Bytes, c: Reads.Classification, route: Route,
                ending: Reads.Ending)
    requires Started(f.names, g) && multiset(listed) == multiset(g.routes)
    requires DecidesFirst(f.wire, s, tail, HasRaw(g.routes), g.maxInspectBytes) && s != []
    requires Reads.Inspect(f.wire, s, HasRaw(g.routes), g.maxInspectBytes) == Reads.Accept(c)
    requires RouteOf(f, Canonical(f.names, g), Reads.Decided(c)) == Some(route)
    ensures (forall schedule :: Lead(f, g.(routes := listed), s + tail, schedule, ending) == Some(route))
       <==> |s| + |tail| < g.maxInspectBytes || |s| + 4096 <= g.maxInspectBytes
  {
    var rs, hasRaw := Canonical(f.names, g), HasRaw(g.routes);
    OutcomesLead(f, rs, s, tail, c, route, ending, hasRaw, g.maxInspectBytes);
    RelistingChangesNothing(f.names, g, listed);
    HasRawPermutes(listed, g.routes);
    AllLead(f, g.(routes := listed), rs, hasRaw, s + tail, route, ending);
  }

  /** In a started group the one route that matches a lasting selector is where it leads. */
  lemma OnlyRouteIsTaken(f: Front, g: Group, c: Reads.Classification, sel: Selector, route: Route)
    requires Started(f.names, g) && SelectorOf(f.names, AsText(f, c)) == Ok(sel) && Lasting(f.names, sel)
    requires route in Canonical(f.names, g) && Matches(route, sel)
    ensures RouteOf(f, Canonical(f.names, g), Reads.Decided(c)) == Some(route)
  {
    StartedRoutes(f.names, g, sel);
    OnlyMatchIsAnswer(f.names, Canonical(f.names, g), sel, route);
    RouteOfIsSelected(f, Canonical(f.names, g), c, Ok(route));
  }

  /** A client that opens with the HTTP/2 preface reaches the HTTP/2 route. */
  lemma PrefaceReachesItsRoute(f: Front, g: Group, listed: seq<Route>, tail: Bytes, route: Route, ending: Reads.Ending)
    requires Started(f.names, g) && multiset(listed) == multiset(g.routes)
    requires route in Canonical(f.names, g) && route.kind == "http2-preface"
    ensures (forall schedule :: Lead(f, g.(routes := listed), Http2Preface() + tail, schedule, ending) == Some(route))
       <==> 24 + |tail| < g.maxInspectBytes || 24 + 4096 <= g.maxInspectBytes
  {
    var preface := PrefaceOpens(f.wire, tail, HasRaw(g.routes), g.maxInspectBytes);
    PrefaceRouteIsTaken(f, g, route);
    Reaches(f, g, listed, preface, tail, Reads.Http2, route, ending);
  }

  lemma PrefaceRouteIsTaken(f: Front, g: Group, route: Route)
    requires Started(f.names, g) && route in Canonical(f.names, g) && route.kind == "http2-preface"
    ensures RouteOf(f, Canonical(f.names, g), Reads.Decided(Reads.Http2)) == Some(route)
  {
    OnlyRouteIsTaken(f, g, Reads.Http2, ByHttp2, route);
  }

  lemma PrefaceOpens(lib: Reads.Library, tail: Bytes, hasRaw: bool, max: int) returns (preface: Bytes)
    ensures preface == Http2Preface() && |preface| == 24 && DecidesFirst(lib, preface, tail, hasRaw, max)
    ensures Reads.Inspect(lib, preface, hasRaw, max) == Reads.Accept(Reads.Http2)
  {
    PrefaceIsText();
    PrefaceDecidesFirst(lib, tail, hasRaw, max);
    preface := Http2Preface();
  }

  /** A request reaches the route that has its path, and its host unless the route has none. */
  lemma RequestReachesItsRoute(f: Front, g: Group, listed: seq<Route>, head: Bytes, method_: nat, tail: Bytes,
                               host: Name, path: Bytes, name: string, route: Route, ending: Reads.Ending)
    requires Started(f.names, g) && multiset(listed) == multiset(g.routes)
    requires IsRequest(head, method_) && f.wire.selector(head) == Some((host, path))
    requires f.names.host(f.text(host)) == Some(name) && Lasting(f.names, ByHttp(name, f.text(path)))
    requires route in Canonical(f.names, g) && route.kind == "http1" && f.text(path) in route.paths
    requires route.hosts == [] || name in route.hosts
    ensures (forall schedule :: Lead(f, g.(routes := listed), head + tail, schedule, ending) == Some(route))
       <==> |head| + |tail| < g.maxInspectBytes || |head| + 4096 <= g.maxInspectBytes
  {
    var c := Reads.Http1(host, path);
    RequestDecidesFirst(f.wire, head, method_, tail, HasRaw(g.routes), g.maxInspectBytes);
    OnlyRouteIsTaken(f, g, c, ByHttp(name, f.text(path)), route);
    Reaches(f, g, listed, head, tail, c, route, ending);
  }

  /** What can become nothing else reaches the raw route. */
  lemma RawReachesItsRoute(f: Front, g: Group, listed: seq<Route>, s: Bytes, tail: Bytes, route: Route,
                           ending: Reads.Ending)
    requires Started(f.names, g) && multiset(listed) == multiset(g.routes) && TurnsRaw(s)
    requires route in Canonical(f.names, g) && route.kind == "raw-catch-all"
    ensures (forall schedule :: Lead(f, g.(routes := listed), s + tail, schedule, ending) == Some(route))
       <==> |s| + |tail| < g.maxInspectBytes || |s| + 4096 <= g.maxInspectBytes
  {
    RawRouteIsTaken(f, g, route);
    RawIsAccepted(f.wire, s, tail, HasRaw(g.routes), g.maxInspectBytes);
    Reaches(f, g, listed, s, tail, Reads.Raw, route, ending);
  }

  lemma RawRouteIsTaken(f: Front, g: Group, route: Route)
    requires Started(f.names, g) && route in Canonical(f.names, g) && route.kind == "raw-catch-all"
    ensures HasRaw(g.routes) && RouteOf(f, Canonical(f.names, g), Reads.Decided(Reads.Raw)) == Some(route)
  {
    RawRouteIsListed(f.names, g, route);
    OnlyRouteIsTaken(f, g, Reads.Raw, ByRaw, route);
  }

  lemma RawIsAccepted(lib: Reads.Library, s: Bytes, tail: Bytes, hasRaw: bool, max: int)
    requires TurnsRaw(s) && hasRaw
    ensures s != [] && DecidesFirst(lib, s, tail, hasRaw, max)
      && Reads.Inspect(lib, s, hasRaw, max) == Reads.Accept(Reads.Raw)
  {
    RawDecidesFirst(lib, s, tail, hasRaw, max);
  }

  lemma RawRouteIsListed(lib: Library, g: Group, route: Route)
    requires route in Canonical(lib, g) && route.kind == "raw-catch-all"
    ensures HasRaw(g.routes)
  {
    var cs := CanonicalRoutes(lib, g.routes);
    SortByIdPermutes(cs);
    assert route in multiset(Canonical(lib, g));
    var k :| 0 <= k < |cs| && cs[k] == route;
    assert g.routes[k] in g.routes && g.routes[k].kind == route.kind;
  }
}
