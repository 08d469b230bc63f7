/**
  One connection from its first byte to its backend (handleConnection in
  internal/frontmux/manager.go): classification, selection and the replay of the inspected bytes.

  The bytes of the stream and the routes of the group determine the backend, except for streams
  that classification itself leaves to the schedule of the reads; RouteIsDeterminedIff says when.
*/
module Connections {
  import opened Wrappers
  import opened TlsHello
  import opened TlsEncoding
  import opened HelloClassification
  import Reads = Classifier
  import opened Routes
  import opened RunningRoutes

  /** The libraries of both halves, and how inspected bytes read as text. */
  datatype Front = Front(wire: Reads.Library, names: Library, text: Bytes -> string)

  function AsText(f: Front, c: Reads.Classification): Classification {
    match c
    case Tls(sni) => Tls(f.text(sni))
    case Http1(host, path) => Http1(f.text(host), f.text(path))
    case Http2 => Http2
    case Raw => Raw
  }

  predicate HasRaw(routes: seq<Route>) {
    exists r <- routes :: r.kind == RAW
  }

  /** The route an ended classification leads to, over the canonical routes of a group. */
  ghost function RouteOf(f: Front, rs: seq<Route>, outcome: Reads.Outcome): Option<Route> {
    if outcome.Decided? && exists r :: SelectedFrom(f.names, rs, AsText(f, outcome.classification), Ok(r)) then
      var r :| SelectedFrom(f.names, rs, AsText(f, outcome.classification), Ok(r));
      Some(r)
    else None
  }

  function Found<T>(r: Result<T, SelectError>): Option<T> {
    match r case Ok(v) => Some(v) case Err(_) => None
  }

  lemma RouteOfIsSelected(f: Front, rs: seq<Route>, c: Reads.Classification, r: Result<Route, SelectError>)
    requires SelectedFrom(f.names, rs, AsText(f, c), r)
    ensures RouteOf(f, rs, Reads.Decided(c)) == Found(r)
  {
    forall x | SelectedFrom(f.names, rs, AsText(f, c), Ok(x)) ensures r == Ok(x) {
      SelectedIsUnique(f.names, rs, AsText(f, c), r, Ok(x));
    }
  }

  // ---------------------------------------------------------------- the handler

  /** A connection to a backend that takes `room` bytes before its writes fail. */
  class Backend {
    const address: string
    const room: nat
    var written: Bytes

    constructor (address: string, room: nat)
      ensures this.address == address && this.room == room && written == []
    {
      this.address, this.room, this.written := address, room, [];
    }

    method Write(data: Bytes) returns (ok: bool)
      requires |written| <= room
      modifies this
      ensures ok <==> |old(written)| + |data| <= room
      ensures written == old(written) + if ok then data else data[..room - |old(written)|]
    {
      ok := |written| + |data| <= room;
      written := written + if ok then data else data[..room - |written|];
    }
  }

  /** The first bytes of `sent` that a backend takes. */
  function Taken(sent: Bytes, room: nat): Bytes {
    if |sent| <= room then sent else sent[..room]
  }

  lemma TakenInTwo(a: Bytes, b: Bytes, room: nat)
    ensures |a| > room ==> Taken(a + b, room) == a[..room]
    ensures |a| <= room < |a + b| ==> Taken(a + b, room) == a + b[..room - |a|]
  {
  }

  method GroupHasRaw(routes: seq<Route>) returns (hasRaw: bool)
    ensures hasRaw == HasRaw(routes)
  {
    for i := 0 to |routes|
      invariant forall k | 0 <= k < i :: routes[k].kind != RAW
    {
      if routes[i].kind == RAW {
        return true;
      }
    }
    return false;
  }

  /** selectRoute, an error being no route. */
  method Choose(f: Front, g: Group, c: Reads.Classification) returns (route: Option<Route>)
    ensures route == RouteOf(f, Canonical(f.names, g), Reads.Decided(c))
  {
    var selected := SelectRoute(f.names, g, AsText(f, c));
    RouteOfIsSelected(f, Canonical(f.names, g), c, selected);
    route := Found(selected);
  }

  /** Sends the header, then what was inspected. */
  method Replay(backend: Backend, header: Bytes, inspected: Bytes) returns (ok: bool)
    requires backend.written == []
    modifies backend
    ensures backend.written == Taken(header + inspected, backend.room)
    ensures ok <==> backend.written == header + inspected
  {
    TakenInTwo(header, inspected, backend.room);
    ok := backend.Write(header);
    if ok && |inspected| > 0 {
      ok := backend.Write(inspected);
    }
  }

  /** What becomes of a classified connection that has a route, or none. */
  ghost predicate Handled(route: Option<Route>, sent: Bytes, dial: string -> Option<nat>, backend: Option<Backend>,
                          proxied: bool)
    reads match backend case Some(b) => {b} case None => {}
  {
    && (backend.Some? <==> route.Some? && dial(route.value.backend).Some?)
    && (backend.Some? ==>
          && backend.value.address == route.value.backend
          && backend.value.written == Taken(sent, dial(route.value.backend).value))
    && (proxied <==> backend.Some? && backend.value.written == sent)
  }

  method Serve(route: Option<Route>, header: Bytes, inspected: Bytes, dial: string -> Option<nat>)
    returns (backend: Option<Backend>, proxied: bool)
    ensures Handled(route, header + inspected, dial, backend, proxied)
  {
    if route.None? {
      return None, false;
    }
    var room := dial(route.value.backend);
    if room.None? {
      return None, false;
    }
    var b := new Backend(route.value.backend, room.value);
    proxied := Replay(b, header, inspected);
    backend := Some(b);
  }

  /** How classification of a connection to this group ends, and how many bytes it consumes. */
  function Ended(f: Front, g: Group, stream: Bytes, schedule: Reads.Schedule, read: nat,
                 ending: Reads.Ending): (r: (Reads.Outcome, nat))
    ensures r.1 <= |stream|
  {
    Reads.Run(Reads.Inspector(f.wire, HasRaw(g.routes), g.maxInspectBytes), stream, 0, schedule, read, ending,
              HasRaw(g.routes), g.maxInspectBytes)
  }

  /**
    A backend is connected exactly when the connection leads to a route and the route's backend
    answers. It is sent the PROXY header and all bytes consumed so far, and the handler goes on
    to copy the rest exactly when the backend took them all.
  */
  method HandleConnection(f: Front, g: Group, conn: Reads.Conn, header: Bytes, dial: string -> Option<nat>)
    returns (backend: Option<Backend>, proxied: bool)
    modifies conn
    ensures
      var stream := old(conn.pending);
      var (outcome, consumed) := Ended(f, g, stream, conn.schedule, old(conn.readCount), conn.ending);
      && conn.pending == stream[consumed..]
      && Handled(RouteOf(f, Canonical(f.names, g), outcome), header + stream[..consumed], dial, backend, proxied)
  {
    var hasRaw := GroupHasRaw(g.routes);
    var outcome, inspected := Reads.Classify(f.wire, conn, hasRaw, g.maxInspectBytes);
    if !outcome.Decided? {
      return None, false;
    }
    var route := Choose(f, g, outcome.classification);
    backend, proxied := Serve(route, header, inspected, dial);
  }

  // ---------------------------------------------------------------- one route for one stream

  lemma {:induction false} FirstMatchExists(rs: seq<Route>, sel: Selector, n: nat) returns (r: Route)
    requires n < |rs| && Matches(rs[n], sel)
    ensures FirstMatch(rs, sel, r)
  {
    if k: nat :| k < n && Matches(rs[k], sel) {
      r := FirstMatchExists(rs, sel, k);
    } else {
      r := rs[n];
    }
  }

  lemma RawIsRouted(f: Front, rs: seq<Route>)
    requires SomeMatch(rs, ByRaw)
    ensures RouteOf(f, rs, Reads.Decided(Reads.Raw)).Some?
  {
    var n :| 0 <= n < |rs| && Matches(rs[n], ByRaw);
    var r := FirstMatchExists(rs, ByRaw, n);
    assert SelectedFrom(f.names, rs, Raw, Ok(r));
    RouteOfIsSelected(f, rs, Reads.Raw, Ok(r));
  }

  lemma RawIsKept(lib: Library, g: Group)
    requires HasRaw(g.routes)
    ensures SomeMatch(Canonical(lib, g), ByRaw)
  {
    var cs, rs := CanonicalRoutes(lib, g.routes), Canonical(lib, g);
    var i :| 0 <= i < |g.routes| && g.routes[i].kind == RAW;
    SortByIdPermutes(cs);
    assert cs[i] in multiset(rs);
    var k :| 0 <= k < |rs| && rs[k] == cs[i];
    assert Matches(rs[k], ByRaw);
  }

  /** Without a raw route an overruled header is refused however it is read. */
  lemma {:induction false} TreacherousRuns(lib: Reads.Library, stream: Bytes, pos: nat, schedule: Reads.Schedule,
                                           read: nat, ending: Reads.Ending, max: int)
    requires Reads.Treacherous(stream) && pos <= |stream|
    ensures !Reads.Run(Reads.Inspector(lib, false, max), stream, pos, schedule, read, ending, false, max).0.Decided?
    decreases |stream| - pos
  {
    if pos < max {
      TreacherousPrefix(lib, stream, pos, max);
      if pos < |stream| && Reads.Inspect(lib, stream[..pos], false, max).NeedMore? {
        var n := Reads.ReadSize(schedule, read, Reads.Min(Reads.READ_BUFFER, max - pos), |stream| - pos);
        TreacherousRuns(lib, stream, pos + n, schedule, read + 1, ending, max);
      }
    }
  }

  lemma TreacherousPrefix(lib: Reads.Library, stream: Bytes, pos: nat, max: int)
    requires Reads.Treacherous(stream) && pos <= |stream|
    ensures !Reads.Inspect(lib, stream[..pos], false, max).Accept?
  {
    if pos >= 6 {
      assert stream[..pos][..5] == stream[..5];
      Reads.HastyOverruled(lib, stream[..pos], false, max);
    } else if pos == 5 {
      Reads.HastyIsRejected(lib, stream[..5], false, max);
    }
  }

  /** Where an ended classification may lead, over all schedules. */
  ghost predicate OneRoute(f: Front, rs: seq<Route>, stream: Bytes, ending: Reads.Ending, hasRaw: bool, max: int) {
    forall s: Reads.Schedule, t: Reads.Schedule ::
      RouteOf(f, rs, Reads.Verdict(f.wire, stream, s, ending, hasRaw, max))
      == RouteOf(f, rs, Reads.Verdict(f.wire, stream, t, ending, hasRaw, max))
  }

  /** The condition of SchedulesAgreeIff. */
  ghost predicate Predictable(lib: Reads.Library, stream: Bytes, hasRaw: bool, max: int) {
    || !Reads.Decidable(lib, stream, hasRaw, max)
    || (!Reads.Treacherous(stream) && (|stream| < max || Reads.DecidedEarly(lib, stream, hasRaw, max)))
  }

  lemma TreacherousRoutes(f: Front, rs: seq<Route>, stream: Bytes, ending: Reads.Ending, hasRaw: bool, max: int)
    requires max > 6 && Reads.Treacherous(stream) && (hasRaw ==> SomeMatch(rs, ByRaw))
    ensures OneRoute(f, rs, stream, ending, hasRaw, max) <==> !hasRaw
    ensures RouteOf(f, rs, Reads.WholeStream(f.wire, stream, ending, hasRaw, max)) == None <==> !hasRaw
  {
    Reads.HastyOverruled(f.wire, stream, hasRaw, max);
    if hasRaw {
      RawIsRouted(f, rs);
      var five, six: Reads.Schedule := k => 5, k => 6;
      Reads.HastyIsRejected(f.wire, stream[..5], hasRaw, max);
      Reads.FirstRead(f.wire, stream, 5, ending, hasRaw, max);
      assert stream[..6][..5] == stream[..5];
      Reads.HastyOverruled(f.wire, stream[..6], hasRaw, max);
      Reads.FirstRead(f.wire, stream, 6, ending, hasRaw, max);
      assert RouteOf(f, rs, Reads.Verdict(f.wire, stream, five, ending, hasRaw, max))
          != RouteOf(f, rs, Reads.Verdict(f.wire, stream, six, ending, hasRaw, max));
    } else {
      forall s: Reads.Schedule ensures !Reads.Verdict(f.wire, stream, s, ending, hasRaw, max).Decided? {
        TreacherousRuns(f.wire, stream, 0, s, 0, ending, max);
      }
    }
  }

  lemma LateRoutes(f: Front, rs: seq<Route>, stream: Bytes, ending: Reads.Ending, hasRaw: bool, max: int)
    requires !Reads.Treacherous(stream) && !Predictable(f.wire, stream, hasRaw, max)
    ensures OneRoute(f, rs, stream, ending, hasRaw, max)
       <==> RouteOf(f, rs, Reads.WholeStream(f.wire, stream, ending, hasRaw, max)) == None
  {
    var whole := Reads.WholeStream(f.wire, stream, ending, hasRaw, max);
    forall s: Reads.Schedule
      ensures Reads.Verdict(f.wire, stream, s, ending, hasRaw, max) == Reads.Exceeded
           || Reads.Verdict(f.wire, stream, s, ending, hasRaw, max) == whole
    {
      Reads.RunReachesVerdict(f.wire, stream, 0, s, 0, ending, hasRaw, max);
    }
    Reads.SchedulesAgreeIff(f.wire, stream, ending, hasRaw, max);
    var s: Reads.Schedule, t: Reads.Schedule :|
      Reads.Verdict(f.wire, stream, s, ending, hasRaw, max) != Reads.Verdict(f.wire, stream, t, ending, hasRaw, max);
    if RouteOf(f, rs, whole) != None {
      assert RouteOf(f, rs, Reads.Exceeded) == None;
      assert RouteOf(f, rs, Reads.Verdict(f.wire, stream, s, ending, hasRaw, max))
          != RouteOf(f, rs, Reads.Verdict(f.wire, stream, t, ending, hasRaw, max));
    }
  }

  /** All schedules lead to one route exactly when they agree, or the whole stream leads nowhere. */
  lemma OneRouteIff(f: Front, rs: seq<Route>, stream: Bytes, ending: Reads.Ending, hasRaw: bool, max: int)
    requires max > 6 && (hasRaw ==> SomeMatch(rs, ByRaw))
    ensures OneRoute(f, rs, stream, ending, hasRaw, max) <==>
      || Predictable(f.wire, stream, hasRaw, max)
      || RouteOf(f, rs, Reads.WholeStream(f.wire, stream, ending, hasRaw, max)) == None
  {
    if Predictable(f.wire, stream, hasRaw, max) {
      Reads.SchedulesAgreeIff(f.wire, stream, ending, hasRaw, max);
    } else if Reads.Treacherous(stream) {
      TreacherousRoutes(f, rs, stream, ending, hasRaw, max);
    } else {
      LateRoutes(f, rs, stream, ending, hasRaw, max);
    }
  }

  // ---------------------------------------------------------------- one route for one running group

  /** The route a connection to a running group leads to. */
  ghost function Lead(f: Front, g: Group, stream: Bytes, schedule: Reads.Schedule,
                      ending: Reads.Ending): Option<Route> {
    RouteOf(f, Canonical(f.names, g), Ended(f, g, stream, schedule, 0, ending).0)
  }

  lemma HasRawPermutes(rs: seq<Route>, ps: seq<Route>)
    requires multiset(rs) == multiset(ps)
    ensures HasRaw(rs) <==> HasRaw(ps)
  {
    forall r ensures r in rs <==> r in ps {
      assert r in multiset(rs) <==> r in multiset(ps);
    }
  }

  /** The bytes of a stream and the routes of a group determine where it leads. */
  ghost predicate Determined(f: Front, g: Group, listed: seq<Route>, stream: Bytes, ending: Reads.Ending) {
    forall s: Reads.Schedule, t: Reads.Schedule ::
      Lead(f, g, stream, s, ending) == Lead(f, g.(routes := listed), stream, t, ending)
  }

  /** Where a connection leads, given the canonical routes of its group. */
  lemma LeadOver(f: Front, g: Group, rs: seq<Route>, hasRaw: bool, stream: Bytes, schedule: Reads.Schedule,
                 ending: Reads.Ending)
    requires Canonical(f.names, g) == rs && HasRaw(g.routes) == hasRaw
    ensures Lead(f, g, stream, schedule, ending)
         == RouteOf(f, rs, Reads.Verdict(f.wire, stream, schedule, ending, hasRaw, g.maxInspectBytes))
  {
  }

  lemma DeterminedIffOneRoute(f: Front, g: Group, listed: seq<Route>, rs: seq<Route>, hasRaw: bool, stream: Bytes,
                              ending: Reads.Ending)
    requires Canonical(f.names, g) == rs && HasRaw(g.routes) == hasRaw
    requires Canonical(f.names, g.(routes := listed)) == rs && HasRaw(listed) == hasRaw
    ensures Determined(f, g, listed, stream, ending) <==> OneRoute(f, rs, stream, ending, hasRaw, g.maxInspectBytes)
  {
    forall s: Reads.Schedule
      ensures Lead(f, g, stream, s, ending)
        == RouteOf(f, rs, Reads.Verdict(f.wire, stream, s, ending, hasRaw, g.maxInspectBytes))
      ensures Lead(f, g.(routes := listed), stream, s, ending)
           == RouteOf(f, rs, Reads.Verdict(f.wire, stream, s, ending, hasRaw, g.maxInspectBytes))
    {
      LeadOver(f, g, rs, hasRaw, stream, s, ending);
      LeadOver(f, g.(routes := listed), rs, hasRaw, stream, s, ending);
    }
  }

  lemma StartedLimit(lib: Library, g: Group)
    requires Started(lib, g)
    ensures g.maxInspectBytes >= 1024
  {
  }

  /**
    The bytes a client sends and the routes of a running group, in whatever order they are listed and
    however the bytes are read, determine the backend, exactly when classification does not depend
    on the reads or the stream as a whole leads nowhere.
  */
  lemma RouteIsDeterminedIff(f: Front, g: Group, listed: seq<Route>, stream: Bytes, ending: Reads.Ending)
    requires Started(f.names, g) && multiset(listed) == multiset(g.routes)
    ensures Determined(f, g, listed, stream, ending) <==>
      || Predictable(f.wire, stream, HasRaw(g.routes), g.maxInspectBytes)
      || RouteOf(f, Canonical(f.names, g),
                 Reads.WholeStream(f.wire, stream, ending, HasRaw(g.routes), g.maxInspectBytes)) == None
  {
    var hasRaw := HasRaw(g.routes);
    if hasRaw {
      RawIsKept(f.names, g);
    }
    StartedLimit(f.names, g);
    RelistingChangesNothing(f.names, g, listed);
    HasRawPermutes(listed, g.routes);
    OneRouteIff(f, Canonical(f.names, g), stream, ending, hasRaw, g.maxInspectBytes);
    DeterminedIffOneRoute(f, g, listed, Canonical(f.names, g), hasRaw, stream, ending);
  }

  /** The one route of a running group that lists a lasting name. */
  lemma NameIsRouted(f: Front, g: Group, sni: Name, name: string, route: Route)
    requires Started(f.names, g) && f.names.serverName(f.text(sni)) == Some(name) && name != ""
    requires route in Canonical(f.names, g) && Matches(route, BySni(name)) && Lasting(f.names, BySni(name))
    ensures RouteOf(f, Canonical(f.names, g), Reads.Decided(Reads.Tls(sni))) == Some(route)
  {
    StartedRoutes(f.names, g, BySni(name));
    OnlyMatchIsAnswer(f.names, Canonical(f.names, g), BySni(name), route);
    RouteOfIsSelected(f, Canonical(f.names, g), Reads.Tls(sni), Ok(route));
  }

  lemma OnlyMatchIsAnswer(lib: Library, rs: seq<Route>, sel: Selector, route: Route)
    requires route in rs && Matches(route, sel) && !TwoMatch(rs, sel)
    ensures Answer(rs, sel, Ok(route))
  {
    var n :| 0 <= n < |rs| && rs[n] == route;
    assert forall j | 0 <= j < n :: !Matches(rs[j], sel);
    assert FirstMatch(rs, sel, route);
  }

  lemma HelloLeads(f: Front, rs: seq<Route>, hello: ClientHello, records: seq<Record>, tail: Bytes, route: Route,
                   ending: Reads.Ending, hasRaw: bool, max: int)
    requires Good(f.wire.serverName, hello) && Carries(records, hello, max) && TlsVersioned(records)
    requires RouteOf(f, rs, Reads.Decided(Reads.Tls(RequestedName(f.wire.serverName, hello)))) == Some(route)
    ensures (forall schedule ::
      RouteOf(f, rs, Reads.Verdict(f.wire, Stream(records) + tail, schedule, ending, hasRaw, max)) == Some(route))
       <==> |Stream(records)| + |tail| < max || |Stream(records)| + Reads.READ_BUFFER <= max
  {
    HelloClassified(f.wire, hello, records, tail, ending, hasRaw, max);
    if |Stream(records)| + |tail| >= max && |Stream(records)| + Reads.READ_BUFFER > max {
      LateHelloCanExceed(f.wire, hello, records, tail, ending, hasRaw, max);
      var schedule :| Reads.Verdict(f.wire, Stream(records) + tail, schedule, ending, hasRaw, max) == Reads.Exceeded;
      assert RouteOf(f, rs, Reads.Verdict(f.wire, Stream(records) + tail, schedule, ending, hasRaw, max)) == None;
    }
  }

  /**
    A TLS client that sends a well-formed ClientHello in any fragmentation, and then anything, is
    connected to the route that lists its name, however its bytes are read and the routes are listed,
    exactly when all it sends stays below the limit or the hello ends a read buffer before it.
  */
  lemma HelloReachesItsRoute(f: Front, g: Group, listed: seq<Route>, hello: ClientHello, records: seq<Record>,
                             tail: Bytes, name: string, route: Route, ending: Reads.Ending)
    requires Started(f.names, g) && multiset(listed) == multiset(g.routes)
    requires Good(f.wire.serverName, hello) && Carries(records, hello, g.maxInspectBytes) && TlsVersioned(records)
    requires f.names.serverName(f.text(RequestedName(f.wire.serverName, hello))) == Some(name) && name != ""
    requires route in Canonical(f.names, g) && route.kind == "tls-sni" && name in route.sni
    requires Lasting(f.names, BySni(name))
    ensures (forall schedule :: Lead(f, g.(routes := listed), Stream(records) + tail, schedule, ending) == Some(route))
       <==> |Stream(records)| + |tail| < g.maxInspectBytes || |Stream(records)| + Reads.READ_BUFFER <= g.maxInspectBytes
  {
    var rs, hasRaw, stream := Canonical(f.names, g), HasRaw(g.routes), Stream(records) + tail;
    NameIsRouted(f, g, RequestedName(f.wire.serverName, hello), name, route);
    HelloLeads(f, rs, hello, records, tail, route, ending, hasRaw, g.maxInspectBytes);
    RelistingChangesNothing(f.names, g, listed);
    HasRawPermutes(listed, g.routes);
    AllLead(f, g.(routes := listed), rs, hasRaw, stream, route, ending);
  }

  lemma AllLead(f: Front, g: Group, rs: seq<Route>, hasRaw: bool, stream: Bytes, route: Route, ending: Reads.Ending)
    requires Canonical(f.names, g) == rs && HasRaw(g.routes) == hasRaw
    ensures (forall schedule :: Lead(f, g, stream, schedule, ending) == Some(route))
       <==> (forall schedule ::
         RouteOf(f, rs, Reads.Verdict(f.wire, stream, schedule, ending, hasRaw, g.maxInspectBytes)) == Some(route))
  {
    forall schedule
      ensures Lead(f, g, stream, schedule, ending)
           == RouteOf(f, rs, Reads.Verdict(f.wire, stream, schedule, ending, hasRaw, g.maxInspectBytes))
    {
      LeadOver(f, g, rs, hasRaw, stream, schedule, ending);
    }
  }
}
