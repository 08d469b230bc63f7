/**
  Validation of a shared-port group (internal/frontmux/plan.go).

  A validated group never routes ambiguously, and not by the order its routes are listed in.
*/
module RouteValidation {
  import opened Wrappers
  import opened Sequences
  import opened Names
  import opened Routes

  // ---------------------------------------------------------------- one route

  predicate TcpFamily(network: string) {
    network in {"tcp", "ws", "grpc", "httpupgrade", "xhttp"}
  }

  predicate ExactSni(lib: Library, v: string) {
    lib.serverName(v).Some? && lib.serverName(v).value != "" && '*' !in v
  }

  /** Route.Validate. */
  predicate RouteOk(lib: Library, r: Route) {
    && !lib.blank(r.id) && !lib.blank(r.backend) && lib.loopback(r.backend)
    && if r.kind == TLS_SNI then
         && r.security in {"tls", "reality"} && TcpFamily(r.network)
         && r.sni != [] && (forall v <- r.sni :: ExactSni(lib, v))
         && r.hosts == [] && r.paths == []
       else if r.kind == HTTP1 then
         && r.security == "none" && r.network in {"ws", "httpupgrade"}
         && r.paths != [] && (forall p <- r.paths :: lib.path(p).Some?) && (forall h <- r.hosts :: lib.host(h).Some?)
         && r.sni == []
       else if r.kind == HTTP2 then
         && r.security == "none" && r.network == "grpc" && r.sni == [] && r.hosts == [] && r.paths == []
       else
         && r.kind == RAW && r.security == "none" && r.network == "tcp" && r.sni == [] && r.hosts == [] && r.paths == []
  }

  type Check = Route -> bool

  function RouteCheck(lib: Library): Check {
    (r: Route) => RouteOk(lib, r)
  }

  predicate AllPass(check: Check, rs: seq<Route>) {
    forall i | 0 <= i < |rs| :: check(rs[i])
  }

  lemma AllPassMeansOk(lib: Library, rs: seq<Route>)
    ensures AllPass(RouteCheck(lib), rs) <==> forall r <- rs :: RouteOk(lib, r)
  {
    if AllPass(RouteCheck(lib), rs) {
      forall r <- rs ensures RouteOk(lib, r) {
        var i :| 0 <= i < |rs| && rs[i] == r;
        assert RouteCheck(lib)(rs[i]);
      }
    } else {
      var i :| 0 <= i < |rs| && !RouteCheck(lib)(rs[i]);
      assert rs[i] in rs;
    }
  }

  // ---------------------------------------------------------------- what routes claim

  predicate Intersect(a: seq<string>, b: seq<string>) {
    exists x <- a :: x in b
  }

  /** Two HTTP routes can both want one request. */
  predicate HttpOverlap(a: Route, b: Route) {
    && a.kind == HTTP1 && b.kind == HTTP1 && Intersect(a.paths, b.paths)
    && (a.hosts == [] || b.hosts == [] || Intersect(a.hosts, b.hosts))
  }

  function HostVariants(lib: Library, hosts: seq<string>): seq<string> {
    var c := Canonicalise(CanonicalString(lib), hosts);
    if c == [] then [""] else c
  }

  function KeysOfHost(host: string, paths: seq<string>): seq<string> {
    if paths == [] then [] else KeysOfHost(host, paths[..|paths| - 1]) + [host + "\0" + paths[|paths| - 1]]
  }

  function KeysOfHosts(hosts: seq<string>, paths: seq<string>): seq<string> {
    if hosts == [] then [] else KeysOfHosts(hosts[..|hosts| - 1], paths) + KeysOfHost(hosts[|hosts| - 1], paths)
  }

  type Claim = Route -> seq<string>

  function ById(): Claim { (r: Route) => [r.id] }

  function ByBackend(): Claim { (r: Route) => [r.backend] }

  function BySniName(): Claim { (r: Route) => if r.kind == TLS_SNI then r.sni else [] }

  /** The host and path keys an HTTP route claims. */
  function ByHttpKey(lib: Library): Claim {
    (r: Route) => if r.kind == HTTP1 then KeysOfHosts(HostVariants(lib, r.hosts), r.paths) else []
  }

  /** At most one route of this kind. */
  function ByKind(kind: string): Claim { (r: Route) => if r.kind == kind then [kind] else [] }

  function Claims(f: Claim, rs: seq<Route>): seq<string> {
    if rs == [] then [] else Claims(f, rs[..|rs| - 1]) + f(rs[|rs| - 1])
  }

  lemma {:induction false} ClaimedBySome(f: Claim, rs: seq<Route>, x: string)
    ensures x in Claims(f, rs) <==> exists i :: 0 <= i < |rs| && x in f(rs[i])
  {
    if rs != [] {
      var n := |rs| - 1;
      ClaimedBySome(f, rs[..n], x);
      assert rs == rs[..n] + [rs[n]];
      assert x in f(rs[n]) ==> exists i :: 0 <= i < |rs| && x in f(rs[i]);
      if i :| 0 <= i < n && x in f(rs[..n][i]) {
        assert x in f(rs[i]);
      }
      if i :| 0 <= i < |rs| && x in f(rs[i]) && i < n {
        assert x in f(rs[..n][i]);
      }
    }
  }

  predicate Disjoint(a: seq<string>, b: seq<string>) {
    forall x <- a :: x !in b
  }

  ghost predicate PairwiseDisjoint(f: Claim, rs: seq<Route>) {
    && (forall i | 0 <= i < |rs| :: Distinct(f(rs[i])))
    && forall i, j | 0 <= i < j < |rs| :: Disjoint(f(rs[i]), f(rs[j]))
  }

  /** One seen-set over all routes is a pairwise check. */
  lemma {:induction false} ClaimsArePairwise(f: Claim, rs: seq<Route>)
    ensures Distinct(Claims(f, rs)) <==> PairwiseDisjoint(f, rs)
  {
    if rs != [] {
      var n := |rs| - 1;
      var front, last := Claims(f, rs[..n]), f(rs[n]);
      ClaimsArePairwise(f, rs[..n]);
      PairwiseDisjointSnoc(f, rs);
      DisjointSnoc(f, rs);
      DistinctSplit(front, last);
    }
  }

  lemma PairwiseDisjointSnoc(f: Claim, rs: seq<Route>)
    requires rs != []
    ensures var n := |rs| - 1;
      PairwiseDisjoint(f, rs) <==>
      PairwiseDisjoint(f, rs[..n]) && Distinct(f(rs[n])) && forall i | 0 <= i < n :: Disjoint(f(rs[i]), f(rs[n]))
  {
    var n := |rs| - 1;
    assert forall i | 0 <= i < n :: rs[..n][i] == rs[i];
  }

  lemma DisjointSnoc(f: Claim, rs: seq<Route>)
    requires rs != []
    ensures var n := |rs| - 1;
      Disjoint(Claims(f, rs[..n]), f(rs[n])) <==> forall i | 0 <= i < n :: Disjoint(f(rs[i]), f(rs[n]))
  {
    var n := |rs| - 1;
    forall x ensures x in Claims(f, rs[..n]) <==> exists i :: 0 <= i < n && x in f(rs[i]) {
      ClaimedBySome(f, rs[..n], x);
      assert forall i | 0 <= i < n :: rs[..n][i] == rs[i];
    }
  }

  lemma DistinctSplit(s: seq<string>, t: seq<string>)
    ensures Distinct(s + t) <==> Distinct(s) && Distinct(t) && Disjoint(s, t)
  {
    var u := s + t;
    if Distinct(u) {
      assert forall i | 0 <= i < |s| :: u[i] == s[i];
      assert forall j | 0 <= j < |t| :: u[|s| + j] == t[j];
    }
    if Distinct(s) && Distinct(t) && Disjoint(s, t) {
      DistinctConcat(s, t);
    }
  }

  // ---------------------------------------------------------------- a group

  /** No two routes conflict. */
  predicate Compatible(a: Route, b: Route) {
    && a.id != b.id && a.backend != b.backend
    && !(a.kind == TLS_SNI && b.kind == TLS_SNI && Intersect(a.sni, b.sni))
    && !(a.kind == HTTP2 && b.kind == HTTP2) && !(a.kind == RAW && b.kind == RAW)
    && !HttpOverlap(a, b)
  }

  predicate PairwiseCompatible(rs: seq<Route>) {
    forall i, j :: 0 <= i < j < |rs| ==> Compatible(rs[i], rs[j])
  }

  predicate GroupHeaderOk(lib: Library, g: Group) {
    && !lib.blank(g.id) && 1 <= g.port <= 65535 && lib.listen(g.listen)
    && 100 <= g.classificationMs <= 30_000 && 1024 <= g.maxInspectBytes <= 0x10_0000
    && 1 <= g.maxConcurrentConns <= 1_000_000 && |g.routes| >= 2
  }

  /** What Group.Validate accepts: no two routes conflict, and no HTTP key is claimed twice. */
  predicate GroupOk(lib: Library, g: Group) {
    var rs := CanonicalRoutes(lib, g.routes);
    && GroupHeaderOk(lib, g) && (forall r <- rs :: RouteOk(lib, r))
    && PairwiseCompatible(rs) && Distinct(Claims(ByHttpKey(lib), rs))
  }

  ghost predicate SeenChecks(lib: Library, rs: seq<Route>) {
    && Distinct(Claims(ById(), rs)) && Distinct(Claims(ByBackend(), rs))
    && Distinct(Claims(BySniName(), rs)) && Distinct(Claims(ByHttpKey(lib), rs))
  }

  ghost predicate NoHttpOverlap(rs: seq<Route>) {
    forall i, j | 0 <= i < j < |rs| :: !HttpOverlap(rs[i], rs[j])
  }

  /** Claims one key after another; a key already seen is an error. */
  method ClaimAll(seen: set<string>, keys: seq<string>, ghost claimed: seq<string>)
    returns (ok: bool, now: set<string>)
    requires Distinct(claimed) && seen == set x | x in claimed
    ensures ok <==> Distinct(claimed + keys)
    ensures ok ==> now == set x | x in claimed + keys
  {
    now := seen;
    assert claimed + keys[..0] == claimed;
    for i := 0 to |keys|
      invariant Distinct(claimed + keys[..i]) && now == set x | x in claimed + keys[..i]
    {
      assert claimed + keys[..i + 1] == claimed + keys[..i] + [keys[i]];
      if keys[i] in now {
        RepeatIsNotDistinct(claimed + keys[..i], keys[i], claimed + keys);
        return false, now;
      }
      now := now + {keys[i]};
    }
    assert keys[..|keys|] == keys;
    ok := true;
  }

  lemma RepeatIsNotDistinct(front: seq<string>, x: string, all: seq<string>)
    requires x in front && |front| < |all| && all[..|front|] == front && all[|front|] == x
    ensures !Distinct(all)
  {
    var i :| 0 <= i < |front| && front[i] == x;
    assert all[i] == all[..|front|][i];
  }

  lemma {:induction false} ClaimsOfPrefix(f: Claim, rs: seq<Route>, k: nat)
    requires k <= |rs|
    ensures Distinct(Claims(f, rs)) ==> Distinct(Claims(f, rs[..k]))
    decreases |rs|
  {
    if k < |rs| {
      var front := rs[..|rs| - 1];
      ClaimsOfPrefix(f, front, k);
      assert front[..k] == rs[..k];
      DistinctSplit(Claims(f, front), f(rs[|rs| - 1]));
    } else {
      assert rs[..k] == rs;
    }
  }

  lemma ClaimsSnoc(f: Claim, rs: seq<Route>, i: nat)
    requires i < |rs|
    ensures Claims(f, rs[..i + 1]) == Claims(f, rs[..i]) + f(rs[i])
  {
    assert rs[..i + 1][..i] == rs[..i];
  }

  /** What the loop over the routes has gathered. */
  datatype Seen = Seen(ids: set<string>, backends: set<string>, snis: set<string>, keys: set<string>, http2: nat,
                       raw: nat)

  ghost predicate Claimed(f: Claim, rs: seq<Route>, seen: set<string>) {
    Distinct(Claims(f, rs)) && seen == Elems(Claims(f, rs))
  }

  /** These routes are valid, claim nothing twice, and are all accounted for. */
  ghost predicate Scanned(lib: Library, check: Check, rs: seq<Route>, seen: Seen) {
    && AllPass(check, rs)
    && Claimed(ById(), rs, seen.ids) && Claimed(ByBackend(), rs, seen.backends)
    && Claimed(BySniName(), rs, seen.snis) && Claimed(ByHttpKey(lib), rs, seen.keys)
    && seen.http2 == |Claims(ByKind(HTTP2), rs)| && seen.raw == |Claims(ByKind(RAW), rs)|
  }

  /** The seen-set of one kind of claim, one route further. */
  method ClaimRoute(f: Claim, rs: seq<Route>, i: nat, seen: set<string>) returns (ok: bool, now: set<string>)
    requires i < |rs| && Claimed(f, rs[..i], seen)
    ensures !ok ==> !Distinct(Claims(f, rs))
    ensures ok ==> Claimed(f, rs[..i + 1], now)
  {
    ClaimsSnoc(f, rs, i);
    ClaimsOfPrefix(f, rs, i + 1);
    ok, now := ClaimAll(seen, f(rs[i]), Claims(f, rs[..i]));
  }

  lemma AllPassSnoc(check: Check, rs: seq<Route>, i: nat)
    requires i < |rs|
    ensures AllPass(check, rs[..i + 1]) <==> AllPass(check, rs[..i]) && check(rs[i])
    ensures !check(rs[i]) ==> !AllPass(check, rs)
  {
    assert forall j | 0 <= j < i :: rs[..i + 1][j] == rs[..i][j];
    assert rs[..i + 1][i] == rs[i];
  }

  /** The turn of one route, its claims checked in the order of the code. */
  method ScanRoute(lib: Library, check: Check, rs: seq<Route>, i: nat, seen: Seen) returns (ok: bool, now: Seen)
    requires i < |rs| && Scanned(lib, check, rs[..i], seen)
    ensures !ok ==> !(AllPass(check, rs) && SeenChecks(lib, rs))
    ensures ok ==> Scanned(lib, check, rs[..i + 1], now)
  {
    now := seen;
    AllPassSnoc(check, rs, i);
    if !check(rs[i]) {
      return false, now;
    }
    var ids, backends, snis, keys;
    ok, ids := ClaimRoute(ById(), rs, i, seen.ids);
    if !ok {
      return;
    }
    ok, backends := ClaimRoute(ByBackend(), rs, i, seen.backends);
    if !ok {
      return;
    }
    ok, snis := ClaimRoute(BySniName(), rs, i, seen.snis);
    if !ok {
      return;
    }
    ok, keys := ClaimRoute(ByHttpKey(lib), rs, i, seen.keys);
    ClaimsSnoc(ByKind(HTTP2), rs, i);
    ClaimsSnoc(ByKind(RAW), rs, i);
    now := Seen(ids, backends, snis, keys, seen.http2 + |ByKind(HTTP2)(rs[i])|, seen.raw + |ByKind(RAW)(rs[i])|);
  }

  /** The loop over the routes: each valid, and claiming nothing claimed before. */
  method ScanRoutes(lib: Library, rs: seq<Route>) returns (ok: bool, http2: nat, raw: nat)
    ensures ok <==> AllPass(RouteCheck(lib), rs) && SeenChecks(lib, rs)
    ensures ok ==> http2 == |Claims(ByKind(HTTP2), rs)| && raw == |Claims(ByKind(RAW), rs)|
  {
    var check, seen := RouteCheck(lib), Seen({}, {}, {}, {}, 0, 0);
    for i := 0 to |rs|
      invariant Scanned(lib, check, rs[..i], seen)
    {
      ok, seen := ScanRoute(lib, check, rs, i, seen);
      if !ok {
        return false, 0, 0;
      }
    }
    assert rs[..|rs|] == rs;
    return true, seen.http2, seen.raw;
  }

  /** The second pass, over every pair of HTTP routes. */
  method FindHttpOverlap(rs: seq<Route>) returns (found: bool)
    ensures found <==> !NoHttpOverlap(rs)
  {
    for left := 0 to |rs|
      invariant forall i, j | 0 <= i < left && i < j < |rs| :: !HttpOverlap(rs[i], rs[j])
    {
      if rs[left].kind != HTTP1 {
        continue;
      }
      for right := left + 1 to |rs|
        invariant forall j | left < j < right :: !HttpOverlap(rs[left], rs[j])
      {
        if HttpOverlap(rs[left], rs[right]) {
          return true;
        }
      }
    }
    return false;
  }

  /** Group.Validate accepts exactly the groups whose routes are valid and pairwise compatible. */
  method ValidateGroup(lib: Library, g: Group) returns (ok: bool)
    ensures ok <==> GroupOk(lib, g)
  {
    if !GroupHeaderOk(lib, g) {
      return false;
    }
    var rs := CanonicalRoutes(lib, g.routes);
    CompatibleMeansChecked(lib, g);
    AllPassMeansOk(lib, rs);
    var http2, raw;
    ok, http2, raw := ScanRoutes(lib, rs);
    if !ok {
      return;
    }
    var overlap := FindHttpOverlap(rs);
    ok := !overlap && raw <= 1 && http2 <= 1;
  }

  lemma CanonicalSniIsDistinct(lib: Library, r: Route)
    ensures Distinct(CanonicalRoute(lib, r).sni)
  {
    CollectIsDistinct(CanonicalString(lib), r.sni);
    SortGivesListing(Collect(CanonicalString(lib), r.sni));
  }

  lemma {:induction false} OneOfAKind(kind: string, rs: seq<Route>)
    ensures Distinct(Claims(ByKind(kind), rs)) <==> |Claims(ByKind(kind), rs)| <= 1
    ensures forall x <- Claims(ByKind(kind), rs) :: x == kind
  {
    if rs != [] {
      OneOfAKind(kind, rs[..|rs| - 1]);
    }
    var c := Claims(ByKind(kind), rs);
    if |c| > 1 {
      assert c[0] in c && c[1] in c;
    }
  }

  /** The code's checks, spread over seen-sets, counters and pair loops, amount to pairwise compatibility. */
  lemma CompatibleMeansChecked(lib: Library, g: Group)
    ensures var rs := CanonicalRoutes(lib, g.routes);
      (PairwiseCompatible(rs) && Distinct(Claims(ByHttpKey(lib), rs))) <==>
      (SeenChecks(lib, rs) && NoHttpOverlap(rs)
       && |Claims(ByKind(HTTP2), rs)| <= 1 && |Claims(ByKind(RAW), rs)| <= 1)
  {
    var rs := CanonicalRoutes(lib, g.routes);
    OneOfAKind(HTTP2, rs);
    OneOfAKind(RAW, rs);
    ClaimsArePairwise(ByKind(HTTP2), rs);
    ClaimsArePairwise(ByKind(RAW), rs);
    ClaimsArePairwise(ById(), rs);
    ClaimsArePairwise(ByBackend(), rs);
    ClaimsArePairwise(BySniName(), rs);
    forall r <- rs ensures Distinct(r.sni) {
      var i :| 0 <= i < |rs| && rs[i] == r;
      CanonicalSniIsDistinct(lib, g.routes[i]);
    }
    CompatibleIsPairwise(rs);
  }

  lemma CompatibleIsPairwise(rs: seq<Route>)
    requires forall r <- rs :: Distinct(r.sni)
    ensures PairwiseCompatible(rs) <==>
      (PairwiseDisjoint(ById(), rs) && PairwiseDisjoint(ByBackend(), rs) && PairwiseDisjoint(BySniName(), rs)
       && PairwiseDisjoint(ByKind(HTTP2), rs) && PairwiseDisjoint(ByKind(RAW), rs) && NoHttpOverlap(rs))
  {
    forall i, j | 0 <= i < j < |rs|
      ensures Compatible(rs[i], rs[j]) <==>
        (Disjoint(ById()(rs[i]), ById()(rs[j])) && Disjoint(ByBackend()(rs[i]), ByBackend()(rs[j]))
         && Disjoint(BySniName()(rs[i]), BySniName()(rs[j])) && Disjoint(ByKind(HTTP2)(rs[i]), ByKind(HTTP2)(rs[j]))
         && Disjoint(ByKind(RAW)(rs[i]), ByKind(RAW)(rs[j])) && !HttpOverlap(rs[i], rs[j]))
    {
      CompatibleMeansDisjoint(rs[i], rs[j]);
    }
  }

  lemma CompatibleMeansDisjoint(a: Route, b: Route)
    ensures Compatible(a, b) <==>
      (Disjoint(ById()(a), ById()(b)) && Disjoint(ByBackend()(a), ByBackend()(b))
       && Disjoint(BySniName()(a), BySniName()(b)) && Disjoint(ByKind(HTTP2)(a), ByKind(HTTP2)(b))
       && Disjoint(ByKind(RAW)(a), ByKind(RAW)(b)) && !HttpOverlap(a, b))
  {
    assert Disjoint([a.id], [b.id]) <==> a.id != b.id by {
      assert a.id in [a.id];
    }
    assert Disjoint([a.backend], [b.backend]) <==> a.backend != b.backend by {
      assert a.backend in [a.backend];
    }
    assert Disjoint(a.sni, b.sni) <==> !Intersect(a.sni, b.sni);
    assert !Disjoint([HTTP2], [HTTP2]) && !Disjoint([RAW], [RAW]) by {
      assert HTTP2 in [HTTP2] && RAW in [RAW];
    }
  }

  /** The overlap check is neither too strict nor too lax: it fires exactly when some request suits both routes. */
  lemma OverlapIsExact(a: Route, b: Route)
    requires a.kind == HTTP1 && b.kind == HTTP1
    ensures HttpOverlap(a, b) <==> exists h, p :: Matches(a, ByHttp(h, p)) && Matches(b, ByHttp(h, p))
  {
    if HttpOverlap(a, b) {
      var p :| p in a.paths && p in b.paths;
      var h := if a.hosts == [] && b.hosts == [] then ""
               else if a.hosts == [] then b.hosts[0]
               else if b.hosts == [] then a.hosts[0]
               else (var x :| x in a.hosts && x in b.hosts; x);
      assert Matches(a, ByHttp(h, p)) && Matches(b, ByHttp(h, p));
    }
  }

  // ---------------------------------------------------------------- a valid group routes unambiguously

  lemma CompatibleNeverBothMatch(a: Route, b: Route, sel: Selector)
    requires Compatible(a, b)
    ensures !(Matches(a, sel) && Matches(b, sel))
  {
  }

  lemma {:induction false} OneOccurrence(rs: seq<Route>, r: Route, i: nat, j: nat)
    requires i < j < |rs| && rs[i] == r && rs[j] == r
    ensures multiset(rs)[r] >= 2
  {
    assert rs == rs[..j] + rs[j..];
    assert rs[..j][i] == r && rs[j..][0] == r;
    assert multiset(rs)[r] == multiset(rs[..j])[r] + multiset(rs[j..])[r];
  }

  predicate DistinctIds(rs: seq<Route>) {
    forall i, j :: 0 <= i < j < |rs| ==> rs[i].id != rs[j].id
  }

  lemma {:induction false} NoRepeats(rs: seq<Route>, r: Route)
    requires DistinctIds(rs)
    ensures multiset(rs)[r] <= 1
  {
    if rs != [] {
      var n := |rs| - 1;
      assert rs == rs[..n] + [rs[n]];
      NoRepeats(rs[..n], r);
      if r in rs[..n] {
        var i :| 0 <= i < n && rs[i] == r;
        assert rs[i].id != rs[n].id;
      }
    }
  }

  /** Reordering routes with distinct ids makes no second match. */
  lemma ReorderingKeepsOneMatch(rs: seq<Route>, ps: seq<Route>, sel: Selector)
    requires DistinctIds(rs) && !TwoMatch(rs, sel) && multiset(ps) == multiset(rs)
    ensures !TwoMatch(ps, sel)
  {
    assert forall a, b | 0 <= a < b < |rs| :: !(Matches(rs[a], sel) && Matches(rs[b], sel));
    forall i, j | 0 <= i < j < |ps| && Matches(ps[i], sel) ensures !Matches(ps[j], sel) {
      assert ps[i] in multiset(rs) && ps[j] in multiset(rs);
      var a :| 0 <= a < |rs| && rs[a] == ps[i];
      var b :| 0 <= b < |rs| && rs[b] == ps[j];
      if a == b {
        OneOccurrence(ps, ps[i], i, j);
        NoRepeats(rs, ps[i]);
        assert false;
      }
    }
  }

  /** In any reordering of compatible routes, at most one matches. */
  lemma AtMostOneMatches(rs: seq<Route>, ps: seq<Route>, sel: Selector)
    requires PairwiseCompatible(rs) && multiset(ps) == multiset(rs)
    ensures DistinctIds(rs) && !TwoMatch(ps, sel)
  {
    forall i, j | 0 <= i < j < |rs| ensures rs[i].id != rs[j].id && !(Matches(rs[i], sel) && Matches(rs[j], sel)) {
      CompatibleNeverBothMatch(rs[i], rs[j], sel);
    }
    ReorderingKeepsOneMatch(rs, ps, sel);
  }

  /** For a validated group the HTTP branch never reports ambiguity, and no connection has two routes. */
  lemma ValidatedIsUnambiguous(lib: Library, g: Group, sel: Selector)
    requires GroupOk(lib, g)
    ensures !TwoMatch(Canonical(lib, g), sel)
  {
    CanonicalIsSorted(lib, g);
    AtMostOneMatches(CanonicalRoutes(lib, g.routes), Canonical(lib, g), sel);
  }

  lemma RelistedIsUnambiguous(lib: Library, g: Group, listed: seq<Route>, sel: Selector)
    requires GroupOk(lib, g) && multiset(listed) == multiset(g.routes)
    ensures multiset(Canonical(lib, g)) == multiset(Canonical(lib, g.(routes := listed)))
    ensures !TwoMatch(Canonical(lib, g.(routes := listed)), sel)
  {
    CanonicalIsSorted(lib, g);
    CanonicalIsSorted(lib, g.(routes := listed));
    MapPermutes(Canonically(lib), listed, g.routes);
    AtMostOneMatches(CanonicalRoutes(lib, g.routes), Canonical(lib, g.(routes := listed)), sel);
  }

  /** The chosen route does not depend on the order in which a validated group lists its routes. */
  lemma OrderOfRoutesIsIrrelevant(lib: Library, g: Group, listed: seq<Route>, c: Classification,
                                  r: Result<Route, SelectError>, s: Result<Route, SelectError>)
    requires GroupOk(lib, g) && multiset(listed) == multiset(g.routes)
    requires Selected(lib, g, c, r) && Selected(lib, g.(routes := listed), c, s)
    ensures r == s && r != Err(Ambiguous)
  {
    if SelectorOf(lib, c).Ok? {
      var sel := SelectorOf(lib, c).value;
      RelistedIsUnambiguous(lib, g, listed, sel);
      ValidatedIsUnambiguous(lib, g, sel);
      AnswersAgree(Canonical(lib, g), Canonical(lib, g.(routes := listed)), sel, r, s);
    }
  }

  lemma AnswersAgree(rs: seq<Route>, ps: seq<Route>, sel: Selector,
                     r: Result<Route, SelectError>, s: Result<Route, SelectError>)
    requires multiset(rs) == multiset(ps) && !TwoMatch(rs, sel) && !TwoMatch(ps, sel)
    requires Answer(rs, sel, r) && Answer(ps, sel, s)
    ensures r == s && r != Err(Ambiguous)
  {
    SameMatches(rs, ps, sel);
    SameMatches(ps, rs, sel);
    if r.Ok? && s.Ok? {
      UniqueMatch(rs, r.value, s.value, sel);
    }
  }

  lemma SameMatches(rs: seq<Route>, ps: seq<Route>, sel: Selector)
    requires multiset(rs) == multiset(ps)
    ensures SomeMatch(rs, sel) ==> SomeMatch(ps, sel)
    ensures forall r | r in ps :: r in rs
  {
    forall r | r in ps ensures r in rs {
      assert r in multiset(ps);
      assert r in multiset(rs);
    }
    if SomeMatch(rs, sel) {
      var i :| 0 <= i < |rs| && Matches(rs[i], sel);
      assert rs[i] in multiset(ps);
      var j :| 0 <= j < |ps| && ps[j] == rs[i];
    }
  }

  lemma UniqueMatch(rs: seq<Route>, a: Route, b: Route, sel: Selector)
    requires !TwoMatch(rs, sel) && a in rs && b in rs && Matches(a, sel) && Matches(b, sel)
    ensures a == b
  {
    var i :| 0 <= i < |rs| && rs[i] == a;
    var j :| 0 <= j < |rs| && rs[j] == b;
    if i < j {
      assert Matches(rs[i], sel) && Matches(rs[j], sel);
    } else if j < i {
      assert Matches(rs[j], sel) && Matches(rs[i], sel);
    }
  }
}
