/**
  What validation lets onto a shared port, rule by rule (internal/frontmux/plan.go): which combinations of
  kind, security and network, which selectors, and only backends on the loopback.
*/
module GroupRules {
  import opened Wrappers
  import opened Sequences
  import opened Routes
  import opened RouteValidation

  /** Kind, security and network of a route that may be served. */
  function Served(): set<(string, string, string)> {
    {("tls-sni", "tls", "tcp"), ("tls-sni", "tls", "ws"), ("tls-sni", "tls", "grpc"), ("tls-sni", "tls", "httpupgrade"),
     ("tls-sni", "tls", "xhttp"), ("tls-sni", "reality", "tcp"), ("tls-sni", "reality", "ws"),
     ("tls-sni", "reality", "grpc"), ("tls-sni", "reality", "httpupgrade"), ("tls-sni", "reality", "xhttp"),
     ("http1", "none", "ws"), ("http1", "none", "httpupgrade"), ("http2-preface", "none", "grpc"),
     ("raw-catch-all", "none", "tcp")}
  }

  /** Names exactly on TLS routes, paths exactly on HTTP/1 routes, and hosts on no other. */
  predicate SelectorsFit(lib: Library, r: Route) {
    && (r.sni != [] <==> r.kind == "tls-sni") && (r.paths != [] <==> r.kind == "http1")
    && (r.hosts != [] ==> r.kind == "http1")
    && (forall v <- r.sni :: '*' !in v && lib.serverName(v).Some? && lib.serverName(v) != Some(""))
    && (forall p <- r.paths :: lib.path(p).Some?) && (forall h <- r.hosts :: lib.host(h).Some?)
  }

  /** A route that may be served: its backend is on the loopback, its combination is one of those, its selectors fit. */
  predicate MayBeServed(lib: Library, r: Route) {
    && !lib.blank(r.id) && !lib.blank(r.backend) && lib.loopback(r.backend)
    && (r.kind, r.security, r.network) in Served() && SelectorsFit(lib, r)
  }

  lemma RouteOkIff(lib: Library, r: Route)
    ensures RouteOk(lib, r) <==> MayBeServed(lib, r)
  {
  }

  lemma RoutesOkIff(lib: Library, rs: seq<Route>)
    ensures (forall r <- rs :: RouteOk(lib, r)) <==> (forall r <- rs :: MayBeServed(lib, r))
  {
    forall r ensures RouteOk(lib, r) <==> MayBeServed(lib, r) {
      RouteOkIff(lib, r);
    }
  }

  /** Two routes that may stand in one group. */
  predicate Apart(a: Route, b: Route) {
    && a.id != b.id && a.backend != b.backend
    && (a.kind == b.kind ==> a.kind != "http2-preface" && a.kind != "raw-catch-all")
    && (a.kind == b.kind == "tls-sni" ==> forall v <- a.sni :: v !in b.sni)
    && (a.kind == b.kind == "http1" ==>
          (forall p <- a.paths :: p !in b.paths)
            || (a.hosts != [] && b.hosts != [] && forall h <- a.hosts :: h !in b.hosts))
  }

  lemma CompatibleIff(a: Route, b: Route)
    ensures Compatible(a, b) <==> Apart(a, b)
  {
  }

  lemma PairwiseIff(rs: seq<Route>)
    ensures PairwiseCompatible(rs) <==> forall i, j | 0 <= i < j < |rs| :: Apart(rs[i], rs[j])
  {
    forall a, b ensures Compatible(a, b) <==> Apart(a, b) {
      CompatibleIff(a, b);
    }
  }

  /** A group is accepted exactly when it keeps every rule. */
  lemma AcceptedIff(lib: Library, g: Group)
    ensures GroupOk(lib, g) <==>
      && !lib.blank(g.id) && lib.listen(g.listen) && 1 <= g.port <= 65535
      && 100 <= g.classificationMs <= 30000 && 1024 <= g.maxInspectBytes <= 1048576
      && 1 <= g.maxConcurrentConns <= 1000000 && |g.routes| >= 2
      && RoutesFit(lib, CanonicalRoutes(lib, g.routes))
  {
    RoutesOkIff(lib, CanonicalRoutes(lib, g.routes));
    PairwiseIff(CanonicalRoutes(lib, g.routes));
  }

  /** The routes may be served, side by side. */
  ghost predicate RoutesFit(lib: Library, rs: seq<Route>) {
    && (forall r <- rs :: MayBeServed(lib, r)) && (forall i, j | 0 <= i < j < |rs| :: Apart(rs[i], rs[j]))
    && Distinct(Claims(ByHttpKey(lib), rs))
  }

  /** The key of an HTTP/1 route: a host and a path, with a zero between them. */
  lemma KeyIsListed(lib: Library, r: Route, key: string)
    ensures key in ByHttpKey(lib)(r) <==>
      r.kind == "http1" && exists h, p :: h in HostVariants(lib, r.hosts) && p in r.paths && key == h + "\0" + p
  {
    if r.kind == "http1" {
      KeysAreListed(HostVariants(lib, r.hosts), r.paths, key);
    }
  }

  lemma {:induction false} KeysOfOneHost(host: string, paths: seq<string>, key: string)
    ensures key in KeysOfHost(host, paths) <==> exists p :: p in paths && key == host + "\0" + p
  {
    if paths != [] {
      var n := |paths| - 1;
      KeysOfOneHost(host, paths[..n], key);
      assert paths == paths[..n] + [paths[n]];
    }
  }

  lemma {:induction false} KeysAreListed(hosts: seq<string>, paths: seq<string>, key: string)
    ensures key in KeysOfHosts(hosts, paths) <==> exists h, p :: h in hosts && p in paths && key == h + "\0" + p
  {
    if hosts != [] {
      var n := |hosts| - 1;
      KeysAreListed(hosts[..n], paths, key);
      KeysOfOneHost(hosts[n], paths, key);
      assert hosts == hosts[..n] + [hosts[n]];
    }
  }
}
