/**
  Generated Xray configurations as the hot-apply planner reads them (internal/xray/hot_diff.go):
  canonical JSON equality, inbounds by tag, clients by email, outbounds by tag.

  The JSON library is a parameter.  The functions are the meaning of a configuration; the
  methods are the code's indexing loops, proved equal to them.
*/
module HotConfig {
  import opened Wrappers

  datatype Json =
    | Null
    | Bool(b: bool)
    | Number(digits: string)
    | Str(text: string)
    | Arr(items: seq<Json>)
    | Obj(fields: map<string, Json>)

  /** A raw JSON section, as bytes. */
  type Raw = string

  datatype Library = Library(
    decode: Raw -> Option<Json>,         // first value of the document, numbers kept as digits
    marshals: Raw -> bool,               // the section can be emitted inside another document
    elements: Raw -> Option<seq<Raw>>,   // a top-level array, split into raw elements
    tagOf: Raw -> Option<string>,        // the "tag" member of an object
    apiTag: Raw -> Option<string>,       // the "tag" member of the api section
    hasReverseClient: Raw -> bool,       // settings carry a reverse-tagged client
    needsCustomCore: Raw -> bool)        // OutboundRequiresExternalCoreRestart

  datatype Inbound = Inbound(
    listen: Raw, port: int, protocol: string, settings: Raw, stream: Raw, tag: string, sniffing: Raw)

  datatype Config = Config(
    log: Raw, dns: Raw, transport: Raw, policy: Raw, api: Raw, stats: Raw, reverse: Raw, fakedns: Raw,
    observatory: Raw, burstObservatory: Raw, metrics: Raw, geodata: Raw, env: Raw,
    routing: Raw, outbounds: Raw, inbounds: seq<Inbound>)

  /** The sections without a reload API, in the order they are compared. */
  function Statics(c: Config): (s: seq<Raw>)
    ensures |s| == 13
  {
    [c.log, c.dns, c.transport, c.policy, c.api, c.stats, c.reverse, c.fakedns,
     c.observatory, c.burstObservatory, c.metrics, c.geodata, c.env]
  }

  // ---------------------------------------------------------------- canonical JSON

  /** What canonicalJSON renders: nothing for an empty section or null, else the value. */
  datatype Canon = Absent | Value(json: Json)

  function CanonicalJson(lib: Library, raw: Raw): Option<Canon> {
    if raw == "" then Some(Absent)
    else match lib.decode(raw)
      case None => None
      case Some(Null) => Some(Absent)
      case Some(json) => Some(Value(json))
  }

  /** rawEqualNormalized. */
  predicate RawEqual(lib: Library, a: Raw, b: Raw) {
    a == b || (CanonicalJson(lib, a).Some? && CanonicalJson(lib, a) == CanonicalJson(lib, b))
  }

  /** What a section means to a running core. */
  datatype Section = Readable(canon: Canon) | Unreadable(raw: Raw)

  function SectionOf(lib: Library, raw: Raw): Section {
    match CanonicalJson(lib, raw)
    case None => Unreadable(raw)
    case Some(canon) => Readable(canon)
  }

  /** Normalised comparison is equality of meaning. */
  lemma RawEqualIsSameSection(lib: Library, a: Raw, b: Raw)
    ensures RawEqual(lib, a, b) <==> SectionOf(lib, a) == SectionOf(lib, b)
  {
  }

  // ---------------------------------------------------------------- clients by email

  datatype Split = Split(clients: map<string, Json>, rest: map<string, Json>)

  function Email(client: Json): string {
    if client.Obj? && "email" in client.fields && client.fields["email"].Str? then
      client.fields["email"].text
    else ""
  }

  function IndexClients(items: seq<Json>): Option<map<string, Json>> {
    if items == [] then Some(map[])
    else
      var client := items[|items| - 1];
      match IndexClients(items[..|items| - 1])
      case None => None
      case Some(clients) =>
        if !client.Obj? || Email(client) == "" || Email(client) in clients then None
        else Some(clients[Email(client) := client])
  }

  function SplitSettings(lib: Library, raw: Raw): Option<Split> {
    if raw == "" then None
    else match lib.decode(raw)
      case Some(Obj(fields)) =>
        (if "clients" !in fields || !fields["clients"].Arr? then None
         else match IndexClients(fields["clients"].items)
           case None => None
           case Some(clients) => Some(Split(clients, fields - {"clients"})))
      case _ => None
  }

  lemma {:induction false} IndexClientsFails(items: seq<Json>, n: nat)
    requires n <= |items| && IndexClients(items[..n]).None?
    ensures IndexClients(items).None?
    decreases |items| - n
  {
    if n < |items| {
      assert items[..n + 1][..n] == items[..n];
      IndexClientsFails(items, n + 1);
    } else {
      assert items[..n] == items;
    }
  }

  predicate OwnEmails(items: seq<Json>) {
    && (forall c <- items :: c.Obj? && Email(c) != "")
    && forall i, j | 0 <= i < j < |items| :: Email(items[i]) != Email(items[j])
  }

  lemma OwnEmailsSnoc(front: seq<Json>, c: Json)
    ensures OwnEmails(front + [c]) <==>
      OwnEmails(front) && c.Obj? && Email(c) != "" && forall d <- front :: Email(d) != Email(c)
  {
    var items := front + [c];
    assert forall i | 0 <= i < |front| :: items[i] == front[i] && items[i] in front;
    assert items[|front|] == c && c in items;
  }

  /** The clients can be diffed exactly when each has an email of its own; they are then found under it. */
  lemma {:induction false} ClientsByEmail(items: seq<Json>)
    ensures IndexClients(items).Some? <==> OwnEmails(items)
    ensures IndexClients(items).Some? ==>
      var m := IndexClients(items).value;
      (forall c <- items :: Email(c) in m && m[Email(c)] == c) && (forall e <- m :: exists c <- items :: Email(c) == e)
  {
    if items != [] {
      var n := |items| - 1;
      var front, last := items[..n], items[n];
      ClientsByEmail(front);
      OwnEmailsSnoc(front, last);
      assert items == front + [last];
      if IndexClients(items).Some? {
        IndexedSnoc(IndexClients(front).value, front, last);
      }
    }
  }

  lemma IndexedSnoc(m: map<string, Json>, front: seq<Json>, c: Json)
    requires forall d <- front :: Email(d) in m && m[Email(d)] == d
    requires (forall e <- m :: exists d <- front :: Email(d) == e) && Email(c) !in m
    ensures var more := m[Email(c) := c];
      && (forall d <- front + [c] :: Email(d) in more && more[Email(d)] == d)
      && (forall e <- more :: exists d <- front + [c] :: Email(d) == e)
  {
    var more := m[Email(c) := c];
    assert c in front + [c];
    forall e <- more ensures exists d <- front + [c] :: Email(d) == e {
      if e in m {
        var d :| d in front && Email(d) == e;
        assert d in front + [c];
      }
    }
  }

  /** splitSettingsClients. */
  method SplitSettingsClients(lib: Library, raw: Raw) returns (split: Option<Split>)
    ensures split == SplitSettings(lib, raw)
  {
    if raw == "" {
      return None;
    }
    var settings := lib.decode(raw);
    if settings.None? || !settings.value.Obj? {
      return None;
    }
    var fields := settings.value.fields;
    if "clients" !in fields || !fields["clients"].Arr? {
      return None;
    }
    var items := fields["clients"].items;
    var clients: map<string, Json> := map[];
    for i := 0 to |items|
      invariant IndexClients(items[..i]) == Some(clients)
    {
      assert items[..i + 1][..i] == items[..i];
      var client := items[i];
      var email := Email(client);
      if !client.Obj? || email == "" || email in clients {
        IndexClientsFails(items, i + 1);
        return None;
      }
      clients := clients[email := client];
    }
    assert items[..|items|] == items;
    return Some(Split(clients, fields - {"clients"}));
  }

  // ---------------------------------------------------------------- inbounds by tag

  function ByTag(inbounds: seq<Inbound>): (r: Option<map<string, Inbound>>)
    ensures r.Some? ==> forall t | t in r.value :: t != "" && r.value[t].tag == t
  {
    if inbounds == [] then Some(map[])
    else
      var ib := inbounds[|inbounds| - 1];
      match ByTag(inbounds[..|inbounds| - 1])
      case None => None
      case Some(m) => if ib.tag == "" || ib.tag in m then None else Some(m[ib.tag := ib])
  }

  function Tags(inbounds: seq<Inbound>): set<string> {
    set ib | ib in inbounds :: ib.tag
  }

  lemma {:induction false} ByTagFails(inbounds: seq<Inbound>, n: nat)
    requires n <= |inbounds| && ByTag(inbounds[..n]).None?
    ensures ByTag(inbounds).None?
    decreases |inbounds| - n
  {
    if n < |inbounds| {
      assert inbounds[..n + 1][..n] == inbounds[..n];
      ByTagFails(inbounds, n + 1);
    } else {
      assert inbounds[..n] == inbounds;
    }
  }

  /** There is an index exactly when every inbound has a tag of its own. */
  lemma {:induction false} IndexedIffTagged(inbounds: seq<Inbound>)
    ensures ByTag(inbounds).Some? <==>
      && (forall ib <- inbounds :: ib.tag != "")
      && forall i, j | 0 <= i < j < |inbounds| :: inbounds[i].tag != inbounds[j].tag
  {
    if inbounds != [] {
      var n := |inbounds| - 1;
      var front := inbounds[..n];
      IndexedIffTagged(front);
      assert inbounds == front + [inbounds[n]];
      assert forall i | 0 <= i < n :: inbounds[i] == front[i];
      if ByTag(front).Some? {
        ByTagLists(front);
        assert inbounds[n].tag in ByTag(front).value <==> exists i :: 0 <= i < n && front[i].tag == inbounds[n].tag;
      }
    }
  }

  /** An index by tag holds exactly the listed inbounds, and no tag twice. */
  lemma {:induction false} ByTagLists(inbounds: seq<Inbound>)
    requires ByTag(inbounds).Some?
    ensures var m := ByTag(inbounds).value;
      && m.Keys == Tags(inbounds)
      && (forall ib | ib in inbounds :: m[ib.tag] == ib)
      && (forall i, j :: 0 <= i < j < |inbounds| ==> inbounds[i].tag != inbounds[j].tag)
  {
    if inbounds != [] {
      var n := |inbounds| - 1;
      var front := inbounds[..n];
      ByTagLists(front);
      assert inbounds == front + [inbounds[n]];
      assert Tags(inbounds) == Tags(front) + {inbounds[n].tag};
      forall i, j | 0 <= i < j < |inbounds| ensures inbounds[i].tag != inbounds[j].tag {
        assert inbounds[i] == front[i] && front[i] in front;
      }
    }
  }

  /** inboundsByTag. */
  method InboundsByTag(inbounds: seq<Inbound>) returns (byTag: Option<map<string, Inbound>>)
    ensures byTag == ByTag(inbounds)
  {
    var m: map<string, Inbound> := map[];
    for i := 0 to |inbounds|
      invariant ByTag(inbounds[..i]) == Some(m)
    {
      assert inbounds[..i + 1][..i] == inbounds[..i];
      var tag := inbounds[i].tag;
      if tag == "" || tag in m {
        ByTagFails(inbounds, i + 1);
        return None;
      }
      m := m[tag := inbounds[i]];
    }
    assert inbounds[..|inbounds|] == inbounds;
    return Some(m);
  }

  /** inboundEqualNormalized. */
  predicate InboundEqual(lib: Library, a: Inbound, b: Inbound) {
    && a.port == b.port && a.protocol == b.protocol && a.tag == b.tag
    && RawEqual(lib, a.listen, b.listen) && RawEqual(lib, a.settings, b.settings)
    && RawEqual(lib, a.stream, b.stream) && RawEqual(lib, a.sniffing, b.sniffing)
  }

  /** json.Marshal of an inbound fails when a non-empty raw section is not JSON. */
  predicate Marshals(lib: Library, ib: Inbound) {
    forall raw <- [ib.listen, ib.settings, ib.stream, ib.sniffing] :: raw == "" || lib.marshals(raw)
  }

  function ApiTag(lib: Library, api: Raw): string {
    if api != "" && lib.apiTag(api).Some? && lib.apiTag(api).value != "" then lib.apiTag(api).value else "api"
  }

  // ---------------------------------------------------------------- outbounds by tag

  datatype Outbound = Outbound(tag: string, raw: Raw, norm: Canon)

  function EntryOf(lib: Library, raw: Raw): Option<Outbound> {
    if lib.tagOf(raw).None? || lib.tagOf(raw).value == "" || CanonicalJson(lib, raw).None? then None
    else Some(Outbound(lib.tagOf(raw).value, raw, CanonicalJson(lib, raw).value))
  }

  function Entries(lib: Library, elems: seq<Raw>): Option<seq<Outbound>> {
    if elems == [] then Some([])
    else
      match (Entries(lib, elems[..|elems| - 1]), EntryOf(lib, elems[|elems| - 1]))
      case (Some(es), Some(e)) => if exists i :: 0 <= i < |es| && es[i].tag == e.tag then None else Some(es + [e])
      case _ => None
  }

  function Outbounds(lib: Library, raw: Raw): Option<seq<Outbound>> {
    if raw == "" then Some([])
    else match lib.elements(raw)
      case None => None
      case Some(elems) => Entries(lib, elems)
  }

  lemma {:induction false} EntriesFails(lib: Library, elems: seq<Raw>, n: nat)
    requires n <= |elems| && Entries(lib, elems[..n]).None?
    ensures Entries(lib, elems).None?
    decreases |elems| - n
  {
    if n < |elems| {
      assert elems[..n + 1][..n] == elems[..n];
      EntriesFails(lib, elems, n + 1);
    } else {
      assert elems[..n] == elems;
    }
  }

  predicate WellTagged(lib: Library, es: seq<Outbound>) {
    && (forall e <- es :: EntryOf(lib, e.raw) == Some(e))
    && (forall i, j :: 0 <= i < j < |es| ==> es[i].tag != es[j].tag)
  }

  lemma {:induction false} EntriesWellTagged(lib: Library, elems: seq<Raw>)
    requires Entries(lib, elems).Some?
    ensures WellTagged(lib, Entries(lib, elems).value)
  {
    if elems != [] {
      EntriesWellTagged(lib, elems[..|elems| - 1]);
    }
  }

  predicate OwnTags(lib: Library, elems: seq<Raw>) {
    && (forall raw <- elems :: EntryOf(lib, raw).Some?)
    && forall i, j | 0 <= i < j < |elems| :: lib.tagOf(elems[i]) != lib.tagOf(elems[j])
  }

  lemma OwnTagsSnoc(lib: Library, front: seq<Raw>, raw: Raw)
    ensures OwnTags(lib, front + [raw]) <==>
      OwnTags(lib, front) && EntryOf(lib, raw).Some? && forall i | 0 <= i < |front| ::
        lib.tagOf(front[i]) != lib.tagOf(raw)
  {
    var elems := front + [raw];
    assert forall i | 0 <= i < |front| :: elems[i] == front[i] && elems[i] in front;
    assert elems[|front|] == raw && raw in elems;
  }

  /** A list parses exactly when every element is a tagged document and no tag repeats; order and elements are kept. */
  lemma {:induction false} ParsedIffTagged(lib: Library, elems: seq<Raw>)
    ensures Entries(lib, elems).Some? <==> OwnTags(lib, elems)
    ensures Entries(lib, elems).Some? ==>
      var es := Entries(lib, elems).value;
      |es| == |elems| && forall i | 0 <= i < |es| :: Some(es[i]) == EntryOf(lib, elems[i])
  {
    if elems != [] {
      var n := |elems| - 1;
      var front, last := elems[..n], elems[n];
      ParsedIffTagged(lib, front);
      OwnTagsSnoc(lib, front, last);
      assert elems == front + [last];
      if Entries(lib, front).Some? {
        SameTags(lib, front, Entries(lib, front).value);
      }
    }
  }

  lemma SameTags(lib: Library, elems: seq<Raw>, es: seq<Outbound>)
    requires |es| == |elems| && forall i | 0 <= i < |es| :: Some(es[i]) == EntryOf(lib, elems[i])
    ensures forall i | 0 <= i < |es| :: lib.tagOf(elems[i]) == Some(es[i].tag)
  {
    assert forall i | 0 <= i < |es| :: Some(es[i]) == EntryOf(lib, elems[i]);
  }

  lemma OutboundsWellTagged(lib: Library, raw: Raw)
    requires Outbounds(lib, raw).Some?
    ensures WellTagged(lib, Outbounds(lib, raw).value)
  {
    if raw != "" {
      EntriesWellTagged(lib, lib.elements(raw).value);
    }
  }

  function OutboundTags(es: seq<Outbound>): set<string> {
    set e | e in es :: e.tag
  }

  /** parseOutbounds. */
  method ParseOutbounds(lib: Library, raw: Raw) returns (r: Option<seq<Outbound>>)
    ensures r == Outbounds(lib, raw)
  {
    if raw == "" {
      return Some([]);
    }
    var parsed := lib.elements(raw);
    if parsed.None? {
      return None;
    }
    var elems := parsed.value;
    var entries: seq<Outbound> := [];
    var seen: set<string> := {};
    for i := 0 to |elems|
      invariant Entries(lib, elems[..i]) == Some(entries)
      invariant seen == OutboundTags(entries)
    {
      assert elems[..i + 1][..i] == elems[..i];
      var tag := lib.tagOf(elems[i]);
      var norm := CanonicalJson(lib, elems[i]);
      if tag.None? || tag.value == "" || tag.value in seen || norm.None? {
        EntriesFails(lib, elems, i + 1);
        return None;
      }
      var e := Outbound(tag.value, elems[i], norm.value);
      assert OutboundTags(entries + [e]) == OutboundTags(entries) + {e.tag};
      seen := seen + {tag.value};
      entries := entries + [e];
    }
    assert elems[..|elems|] == elems;
    return Some(entries);
  }

  /** The map the code builds from a parsed list. */
  function OutboundMap(es: seq<Outbound>): (m: map<string, Outbound>)
    ensures m.Keys == OutboundTags(es)
  {
    if es == [] then map[]
    else
      var n := |es| - 1;
      assert es == es[..n] + [es[n]];
      assert OutboundTags(es) == OutboundTags(es[..n]) + {es[n].tag};
      OutboundMap(es[..n])[es[n].tag := es[n]]
  }

  lemma {:induction false} OutboundMapLists(lib: Library, es: seq<Outbound>)
    requires WellTagged(lib, es)
    ensures forall e | e in es :: OutboundMap(es)[e.tag] == e
    ensures forall t | t in OutboundMap(es) :: OutboundMap(es)[t] in es && OutboundMap(es)[t].tag == t
  {
    if es != [] {
      var n := |es| - 1;
      assert es == es[..n] + [es[n]];
      OutboundMapLists(lib, es[..n]);
    }
  }

  method IndexOutbounds(es: seq<Outbound>) returns (m: map<string, Outbound>)
    ensures m == OutboundMap(es)
  {
    m := map[];
    for i := 0 to |es|
      invariant m == OutboundMap(es[..i])
    {
      assert es[..i + 1][..i] == es[..i];
      m := m[es[i].tag := es[i]];
    }
    assert es[..|es|] == es;
  }

  // ---------------------------------------------------------------- routing

  /** The restart-only remainder of a routing section. */
  datatype RoutingRest = NullDocument | Fields(fields: map<string, Json>)

  /** routingWithoutReloadable. */
  function RoutingRestOf(lib: Library, raw: Raw): Option<RoutingRest> {
    if raw == "" then Some(Fields(map[]))
    else match lib.decode(raw)
      case Some(Null) => Some(NullDocument)
      case Some(Obj(fields)) => Some(Fields(fields - {"rules", "balancers"}))
      case _ => None
  }
}
