/**
  When a change can be hot-applied and what its plan lists, told from the two configurations element by
  element, without the indexes and comparisons the planner builds (internal/xray/hot_diff.go).
*/
module HotReference {
  import opened Wrappers
  import opened Sequences
  import opened HotConfig
  import opened HotDiff
  import opened HotCorrect

  // ---------------------------------------------------------------- two inbounds of one tag

  /** They mean the same. */
  predicate Alike(lib: Library, a: Inbound, b: Inbound) {
    && a.port == b.port && a.protocol == b.protocol
    && SectionOf(lib, a.listen) == SectionOf(lib, b.listen) && SectionOf(lib, a.settings) == SectionOf(lib, b.settings)
    && SectionOf(lib, a.stream) == SectionOf(lib, b.stream) && SectionOf(lib, a.sniffing) == SectionOf(lib, b.sniffing)
  }

  /** The settings are an object with a list of clients, each with an email of its own, and more fields. */
  predicate HasClients(lib: Library, raw: Raw, clients: seq<Json>, rest: map<string, Json>) {
    && raw != "" && lib.decode(raw).Some? && lib.decode(raw).value.Obj?
    && "clients" in lib.decode(raw).value.fields && lib.decode(raw).value.fields["clients"] == Arr(clients)
    && OwnEmails(clients) && rest == lib.decode(raw).value.fields - {"clients"}
  }

  /** They have clients that can be told apart, of a protocol that can change users, and all else means the same. */
  ghost predicate AlikeButClients(lib: Library, a: Inbound, b: Inbound, was: seq<Json>, now: seq<Json>) {
    && a.port == b.port && a.protocol == b.protocol
    && (a.protocol == "vless" || a.protocol == "vmess" || a.protocol == "trojan")
    && SectionOf(lib, a.listen) == SectionOf(lib, b.listen) && SectionOf(lib, a.stream) == SectionOf(lib, b.stream)
    && SectionOf(lib, a.sniffing) == SectionOf(lib, b.sniffing)
    && exists rest :: HasClients(lib, a.settings, was, rest) && HasClients(lib, b.settings, now, rest)
  }

  ghost predicate ByClients(lib: Library, a: Inbound, b: Inbound) {
    exists was, now :: AlikeButClients(lib, a, b, was, now)
  }

  lemma SplitIsClients(lib: Library, raw: Raw, clients: seq<Json>, rest: map<string, Json>)
    requires HasClients(lib, raw, clients, rest)
    ensures IndexClients(clients).Some? && SplitSettings(lib, raw) == Some(Split(IndexClients(clients).value, rest))
  {
    ClientsByEmail(clients);
  }

  lemma ClientsOfSplit(lib: Library, raw: Raw) returns (clients: seq<Json>)
    requires SplitSettings(lib, raw).Some?
    ensures HasClients(lib, raw, clients, SplitSettings(lib, raw).value.rest)
  {
    clients := lib.decode(raw).value.fields["clients"].items;
    ClientsByEmail(clients);
  }

  lemma EqualIsAlike(lib: Library, a: Inbound, b: Inbound)
    requires a.tag == b.tag
    ensures InboundEqual(lib, a, b) <==> Alike(lib, a, b)
  {
    RawEqualIsSameSection(lib, a.listen, b.listen);
    RawEqualIsSameSection(lib, a.settings, b.settings);
    RawEqualIsSameSection(lib, a.stream, b.stream);
    RawEqualIsSameSection(lib, a.sniffing, b.sniffing);
  }

  lemma UsersOnlyIsByClients(lib: Library, a: Inbound, b: Inbound)
    requires a.tag == b.tag
    ensures UsersOnly(lib, a, b) <==> ByClients(lib, a, b)
  {
    RawEqualIsSameSection(lib, a.listen, b.listen);
    RawEqualIsSameSection(lib, a.stream, b.stream);
    RawEqualIsSameSection(lib, a.sniffing, b.sniffing);
    if UsersOnly(lib, a, b) {
      var was := ClientsOfSplit(lib, a.settings);
      var now := ClientsOfSplit(lib, b.settings);
      assert AlikeButClients(lib, a, b, was, now);
    }
    if ByClients(lib, a, b) {
      var was, now :| AlikeButClients(lib, a, b, was, now);
      var rest :| HasClients(lib, a.settings, was, rest) && HasClients(lib, b.settings, now, rest);
      SplitIsClients(lib, a.settings, was, rest);
      SplitIsClients(lib, b.settings, now, rest);
    }
  }

  // ---------------------------------------------------------------- when a change can be applied

  predicate Tagged(inbounds: seq<Inbound>) {
    && (forall ib <- inbounds :: ib.tag != "")
    && forall i, j | 0 <= i < j < |inbounds| :: inbounds[i].tag != inbounds[j].tag
  }

  predicate Named(inbounds: seq<Inbound>, t: string) {
    exists ib <- inbounds :: ib.tag == t
  }

  /** The tag of the inbound the panel talks through, or its usual tag. */
  predicate ForApi(lib: Library, c: Config, t: string) {
    t == "api" || (c.api != "" && lib.apiTag(c.api) == Some(t))
  }

  /** What can be said in a document: sections that are absent or JSON. */
  predicate Sayable(lib: Library, ib: Inbound) {
    && (ib.listen == "" || lib.marshals(ib.listen)) && (ib.settings == "" || lib.marshals(ib.settings))
    && (ib.stream == "" || lib.marshals(ib.stream)) && (ib.sniffing == "" || lib.marshals(ib.sniffing))
  }

  /** An inbound that is in both configurations needs no restart. */
  ghost predicate PairFits(lib: Library, n: Config, a: Inbound, b: Inbound) {
    Alike(lib, a, b) ||
    (&& !ForApi(lib, n, a.tag) && !lib.hasReverseClient(a.settings) && !lib.hasReverseClient(b.settings)
     && (ByClients(lib, a, b) || Sayable(lib, b)))
  }

  ghost predicate InboundsFit(lib: Library, o: Config, n: Config) {
    && Tagged(o.inbounds) && Tagged(n.inbounds)
    && (forall a, b | a in o.inbounds && b in n.inbounds && a.tag == b.tag :: PairFits(lib, n, a, b))
    && (forall a | a in o.inbounds && !Named(n.inbounds, a.tag) :: !ForApi(lib, n, a.tag))
    && (forall b | b in n.inbounds && !Named(o.inbounds, b.tag) :: !ForApi(lib, n, b.tag) && Sayable(lib, b))
  }

  lemma NamedIsTag(inbounds: seq<Inbound>, t: string)
    ensures Named(inbounds, t) <==> t in Tags(inbounds)
  {
  }

  lemma SayableIsMarshalled(lib: Library, ib: Inbound)
    ensures Marshals(lib, ib) <==> Sayable(lib, ib)
  {
    var raws := [ib.listen, ib.settings, ib.stream, ib.sniffing];
    assert raws[0] == ib.listen && raws[1] == ib.settings && raws[2] == ib.stream && raws[3] == ib.sniffing;
    assert forall raw | raw in raws :: raw == raws[0] || raw == raws[1] || raw == raws[2] || raw == raws[3];
  }

  lemma ApiIsForApi(lib: Library, o: Config, n: Config, t: string)
    requires ByTag(o.inbounds).Some? && ByTag(n.inbounds).Some? && t != ""
    ensures IsApi(InboundsOf(lib, o, n), t) <==> ForApi(lib, n, t)
  {
  }

  lemma TagFits(lib: Library, o: Config, n: Config, t: string)
    requires ByTag(o.inbounds).Some? && ByTag(n.inbounds).Some?
    ensures var ctx := InboundsOf(lib, o, n);
      && (t in ctx.old_ && t in ctx.new_ ==>
            (TagApplicable(lib, ctx, t) <==> PairFits(lib, n, ctx.old_[t], ctx.new_[t])))
      && (t in ctx.old_ && t !in ctx.new_ ==> (TagApplicable(lib, ctx, t) <==> !ForApi(lib, n, t)))
      && (t !in ctx.old_ && t in ctx.new_ ==>
            (TagApplicable(lib, ctx, t) <==> !ForApi(lib, n, t) && Sayable(lib, ctx.new_[t])))
  {
    var ctx := InboundsOf(lib, o, n);
    if t in ctx.old_ || t in ctx.new_ {
      ApiIsForApi(lib, o, n, t);
    }
    if t in ctx.new_ {
      SayableIsMarshalled(lib, ctx.new_[t]);
      if t in ctx.old_ {
        EqualIsAlike(lib, ctx.old_[t], ctx.new_[t]);
        UsersOnlyIsByClients(lib, ctx.old_[t], ctx.new_[t]);
      }
    }
  }

  lemma InboundsApplicableIff(lib: Library, o: Config, n: Config)
    ensures (ByTag(o.inbounds).Some? <==> Tagged(o.inbounds)) && (ByTag(n.inbounds).Some? <==> Tagged(n.inbounds))
    ensures Tagged(o.inbounds) && Tagged(n.inbounds) ==>
      (AllApplicable(lib, InboundsOf(lib, o, n), Tags(o.inbounds) + Tags(n.inbounds)) <==> InboundsFit(lib, o, n))
  {
    IndexedIffTagged(o.inbounds);
    IndexedIffTagged(n.inbounds);
    if Tagged(o.inbounds) && Tagged(n.inbounds) {
      var ctx, tags := InboundsOf(lib, o, n), Tags(o.inbounds) + Tags(n.inbounds);
      ByTagLists(o.inbounds);
      ByTagLists(n.inbounds);
      forall t ensures Named(o.inbounds, t) <==> t in ctx.old_ {
        NamedIsTag(o.inbounds, t);
      }
      forall t ensures Named(n.inbounds, t) <==> t in ctx.new_ {
        NamedIsTag(n.inbounds, t);
      }
      if AllApplicable(lib, ctx, tags) {
        AllApplicableFits(lib, o, n);
      }
      if InboundsFit(lib, o, n) {
        forall t | t in tags ensures TagApplicable(lib, ctx, t) {
          TagFits(lib, o, n, t);
          assert t in ctx.old_ ==> ctx.old_[t] in o.inbounds;
          assert t in ctx.new_ ==> ctx.new_[t] in n.inbounds;
        }
      }
    }
  }

  lemma AllApplicableFits(lib: Library, o: Config, n: Config)
    requires Tagged(o.inbounds) && Tagged(n.inbounds) && ByTag(o.inbounds).Some? && ByTag(n.inbounds).Some?
    requires AllApplicable(lib, InboundsOf(lib, o, n), Tags(o.inbounds) + Tags(n.inbounds))
    ensures InboundsFit(lib, o, n)
  {
    var ctx := InboundsOf(lib, o, n);
    ByTagLists(o.inbounds);
    ByTagLists(n.inbounds);
    forall a, b | a in o.inbounds && b in n.inbounds && a.tag == b.tag ensures PairFits(lib, n, a, b) {
      TagFits(lib, o, n, a.tag);
    }
    forall a | a in o.inbounds && !Named(n.inbounds, a.tag) ensures !ForApi(lib, n, a.tag) {
      NamedIsTag(n.inbounds, a.tag);
      TagFits(lib, o, n, a.tag);
    }
    forall b | b in n.inbounds && !Named(o.inbounds, b.tag) ensures !ForApi(lib, n, b.tag) && Sayable(lib, b) {
      NamedIsTag(o.inbounds, b.tag);
      TagFits(lib, o, n, b.tag);
    }
  }

  // ---------------------------------------------------------------- outbounds and routing

  /** The section lists these outbounds, in order, each a document with a tag of its own. */
  predicate Listed(lib: Library, raw: Raw, es: seq<Outbound>) {
    if raw == "" then es == []
    else
      && lib.elements(raw).Some? && |es| == |lib.elements(raw).value|
      && (forall i | 0 <= i < |es| ::
            && es[i].raw == lib.elements(raw).value[i]
            && lib.tagOf(es[i].raw) == Some(es[i].tag) && es[i].tag != ""
            && SectionOf(lib, es[i].raw) == Readable(es[i].norm))
      && forall i, j | 0 <= i < j < |es| :: es[i].tag != es[j].tag
  }

  lemma ListedIff(lib: Library, raw: Raw, es: seq<Outbound>)
    ensures Outbounds(lib, raw) == Some(es) <==> Listed(lib, raw, es)
  {
    if raw != "" && lib.elements(raw).Some? {
      var elems := lib.elements(raw).value;
      ParsedIffTagged(lib, elems);
      if Listed(lib, raw, es) {
        assert forall i | 0 <= i < |es| :: EntryOf(lib, elems[i]) == Some(es[i]);
        assert Entries(lib, elems).value == es;
      }
      if Entries(lib, elems) == Some(es) {
        EntriesWellTagged(lib, elems);
        assert forall i | 0 <= i < |es| :: Some(es[i]) == EntryOf(lib, elems[i]);
      }
    }
  }

  /** Some outbound of the list has this tag and this meaning. */
  predicate HasLike(es: seq<Outbound>, e: Outbound) {
    exists d <- es :: d.tag == e.tag && d.norm == e.norm
  }

  predicate OutboundsFit(lib: Library, oe: seq<Outbound>, ne: seq<Outbound>) {
    && (oe == [] <==> ne == []) && (oe != [] ==> oe[0].tag == ne[0].tag && oe[0].norm == ne[0].norm)
    && forall e <- ne :: !HasLike(oe, e) ==> !lib.needsCustomCore(e.raw)
  }

  lemma DiffersIsUnlike(lib: Library, es: seq<Outbound>, ds: seq<Outbound>, e: Outbound)
    requires WellTagged(lib, es) && WellTagged(lib, ds) && e in es
    ensures OutboundDiffers(OutboundMap(es), OutboundMap(ds), e.tag) <==> !HasLike(ds, e)
    ensures OutboundMap(es)[e.tag] == e
  {
    OutboundMapLists(lib, es);
    OutboundMapLists(lib, ds);
  }

  lemma OutboundsApplicableIff(lib: Library, oe: seq<Outbound>, ne: seq<Outbound>)
    requires WellTagged(lib, oe) && WellTagged(lib, ne)
    ensures OutboundsApplicable(lib, oe, ne) <==> OutboundsFit(lib, oe, ne)
  {
    forall e | e in ne ensures OutboundDiffers(OutboundMap(ne), OutboundMap(oe), e.tag) <==> !HasLike(oe, e) {
      DiffersIsUnlike(lib, ne, oe, e);
    }
  }

  /** The routing sections are the same bytes, or are there and agree but for rules and balancers. */
  predicate RoutingFits(lib: Library, o: Raw, n: Raw) {
    o == n ||
    (&& o != "" && n != "" && lib.decode(o).Some? && lib.decode(n).Some?
     && match (lib.decode(o).value, lib.decode(n).value)
        case (Null, Null) => true
        case (Obj(f), Obj(g)) => f - {"rules", "balancers"} == g - {"rules", "balancers"}
        case _ => false)
  }

  // ---------------------------------------------------------------- the whole change

  ghost predicate ChangeFits(lib: Library, o: Config, n: Config) {
    && SectionOf(lib, o.log) == SectionOf(lib, n.log) && SectionOf(lib, o.dns) == SectionOf(lib, n.dns)
    && SectionOf(lib, o.transport) == SectionOf(lib, n.transport)
    && SectionOf(lib, o.policy) == SectionOf(lib, n.policy)
    && SectionOf(lib, o.api) == SectionOf(lib, n.api) && SectionOf(lib, o.stats) == SectionOf(lib, n.stats)
    && SectionOf(lib, o.reverse) == SectionOf(lib, n.reverse) && SectionOf(lib, o.fakedns) == SectionOf(lib, n.fakedns)
    && SectionOf(lib, o.observatory) == SectionOf(lib, n.observatory)
    && SectionOf(lib, o.burstObservatory) == SectionOf(lib, n.burstObservatory)
    && SectionOf(lib, o.metrics) == SectionOf(lib, n.metrics) && SectionOf(lib, o.geodata) == SectionOf(lib, n.geodata)
    && SectionOf(lib, o.env) == SectionOf(lib, n.env)
    && InboundsFit(lib, o, n)
    && (exists oe, ne :: ListedFit(lib, o, n, oe, ne))
    && RoutingFits(lib, o.routing, n.routing)
  }

  ghost predicate ListedFit(lib: Library, o: Config, n: Config, oe: seq<Outbound>, ne: seq<Outbound>) {
    Listed(lib, o.outbounds, oe) && Listed(lib, n.outbounds, ne) && OutboundsFit(lib, oe, ne)
  }

  lemma ListedFitIff(lib: Library, o: Config, n: Config, oe: seq<Outbound>, ne: seq<Outbound>)
    ensures ListedFit(lib, o, n, oe, ne) <==>
      Outbounds(lib, o.outbounds) == Some(oe) && Outbounds(lib, n.outbounds) == Some(ne)
        && OutboundsApplicable(lib, oe, ne)
  {
    ListedIff(lib, o.outbounds, oe);
    ListedIff(lib, n.outbounds, ne);
    if Outbounds(lib, o.outbounds) == Some(oe) && Outbounds(lib, n.outbounds) == Some(ne) {
      OutboundsWellTagged(lib, o.outbounds);
      OutboundsWellTagged(lib, n.outbounds);
      OutboundsApplicableIff(lib, oe, ne);
    }
  }

  lemma OutboundPartIff(lib: Library, o: Config, n: Config)
    ensures (exists oe, ne :: ListedFit(lib, o, n, oe, ne)) <==>
      && Outbounds(lib, o.outbounds).Some? && Outbounds(lib, n.outbounds).Some?
      && OutboundsApplicable(lib, Outbounds(lib, o.outbounds).value, Outbounds(lib, n.outbounds).value)
  {
    if oe, ne :| ListedFit(lib, o, n, oe, ne) {
      ListedFitIff(lib, o, n, oe, ne);
    }
    if Outbounds(lib, o.outbounds).Some? && Outbounds(lib, n.outbounds).Some? {
      ListedFitIff(lib, o, n, Outbounds(lib, o.outbounds).value, Outbounds(lib, n.outbounds).value);
    }
  }

  lemma RoutingIff(lib: Library, o: Raw, n: Raw)
    ensures RoutingApplicable(lib, o, n) <==> RoutingFits(lib, o, n)
  {
  }

  /** A change can be hot-applied exactly when, element by element, nothing in it needs a restart. */
  lemma ApplicableIff(lib: Library, o: Config, n: Config)
    ensures Applicable(lib, o, n) <==> ChangeFits(lib, o, n)
  {
    StaticsAreFixed(lib, o, n);
    InboundsApplicableIff(lib, o, n);
    OutboundPartIff(lib, o, n);
    RoutingIff(lib, o.routing, n.routing);
  }

  // ---------------------------------------------------------------- what the plan lists

  /** The inbound of the old configuration has to go. */
  ghost predicate Goes(lib: Library, n: Config, a: Inbound) {
    forall b | b in n.inbounds && b.tag == a.tag :: !Alike(lib, a, b) && !ByClients(lib, a, b)
  }

  /** The inbound of the new configuration has to come. */
  ghost predicate Comes(lib: Library, o: Config, b: Inbound) {
    forall a | a in o.inbounds && b.tag == a.tag :: !Alike(lib, a, b) && !ByClients(lib, a, b)
  }

  /** The operation takes out a client that is gone or changed, of an inbound otherwise the same. */
  ghost predicate TakesOut(lib: Library, a: Inbound, b: Inbound, op: UserOp) {
    exists was, now, c :: AlikeButClients(lib, a, b, was, now) && c in was && c !in now
      && op == UserOp(a.tag, a.protocol, Email(c), None)
  }

  /** The operation puts in a client that is new or changed, of an inbound otherwise the same. */
  ghost predicate PutsIn(lib: Library, a: Inbound, b: Inbound, op: UserOp) {
    exists was, now, c :: AlikeButClients(lib, a, b, was, now) && c in now && c !in was
      && op == UserOp(a.tag, a.protocol, Email(c), Some(c))
  }

  lemma DiffersIsMember(a: seq<Json>, b: seq<Json>, c: Json)
    requires OwnEmails(a) && OwnEmails(b) && c in a
    ensures IndexClients(a).Some? && IndexClients(b).Some?
    ensures Differs(IndexClients(a).value, IndexClients(b).value, Email(c)) <==> c !in b
    ensures Email(c) in IndexClients(a).value && IndexClients(a).value[Email(c)] == c
  {
    ClientsByEmail(a);
    ClientsByEmail(b);
  }

  lemma RemovesIsTakesOut(lib: Library, a: Inbound, b: Inbound, op: UserOp)
    requires a.tag == b.tag
    ensures UsersOnly(lib, a, b) && RemovesUser(lib, a, b, op) <==> TakesOut(lib, a, b, op)
  {
    UsersOnlyIsByClients(lib, a, b);
    if ByClients(lib, a, b) {
      var was, now := ClientLists(lib, a, b);
      if RemovesUser(lib, a, b, op) {
        var c :| c in was && Email(c) == op.email;
        DiffersIsMember(was, now, c);
      }
    }
    if TakesOut(lib, a, b, op) {
      var was, now, c :| AlikeButClients(lib, a, b, was, now) && c in was && c !in now
                         && op == UserOp(a.tag, a.protocol, Email(c), None);
      var rest :| HasClients(lib, a.settings, was, rest) && HasClients(lib, b.settings, now, rest);
      SplitIsClients(lib, a.settings, was, rest);
      SplitIsClients(lib, b.settings, now, rest);
      DiffersIsMember(was, now, c);
    }
  }

  /** The clients of two inbounds that differ in nothing else, listed and indexed. */
  lemma ClientLists(lib: Library, a: Inbound, b: Inbound) returns (was: seq<Json>, now: seq<Json>)
    requires ByClients(lib, a, b)
    ensures AlikeButClients(lib, a, b, was, now) && OwnEmails(was) && OwnEmails(now)
    ensures IndexClients(was) == Some(ClientsOf(lib, a)) && IndexClients(now) == Some(ClientsOf(lib, b))
    ensures forall e | e in ClientsOf(lib, a) :: exists c <- was :: Email(c) == e
    ensures forall e | e in ClientsOf(lib, b) :: exists c <- now :: Email(c) == e
  {
    was, now :| AlikeButClients(lib, a, b, was, now);
    var rest :| HasClients(lib, a.settings, was, rest) && HasClients(lib, b.settings, now, rest);
    SplitIsClients(lib, a.settings, was, rest);
    SplitIsClients(lib, b.settings, now, rest);
    ClientsByEmail(was);
    ClientsByEmail(now);
  }

  lemma AddsIsPutsIn(lib: Library, a: Inbound, b: Inbound, op: UserOp)
    requires a.tag == b.tag
    ensures UsersOnly(lib, a, b) && AddsUser(lib, a, b, op) <==> PutsIn(lib, a, b, op)
  {
    UsersOnlyIsByClients(lib, a, b);
    if ByClients(lib, a, b) {
      var was, now := ClientLists(lib, a, b);
      if AddsUser(lib, a, b, op) {
        var c :| c in now && Email(c) == op.email;
        DiffersIsMember(now, was, c);
      }
    }
    if PutsIn(lib, a, b, op) {
      var was, now, c :| AlikeButClients(lib, a, b, was, now) && c in now && c !in was
                         && op == UserOp(a.tag, a.protocol, Email(c), Some(c));
      var rest :| HasClients(lib, a.settings, was, rest) && HasClients(lib, b.settings, now, rest);
      SplitIsClients(lib, a.settings, was, rest);
      SplitIsClients(lib, b.settings, now, rest);
      DiffersIsMember(now, was, c);
    }
  }

  lemma AlikeHaveSameClients(lib: Library, a: Inbound, b: Inbound, was: seq<Json>, now: seq<Json>)
    requires Alike(lib, a, b) && AlikeButClients(lib, a, b, was, now)
    ensures was == now
  {
  }

  lemma DropsInboundIff(lib: Library, o: Config, n: Config, a: Inbound)
    requires ByTag(o.inbounds).Some? && ByTag(n.inbounds).Some? && a in o.inbounds
    ensures DropsInbound(lib, InboundsOf(lib, o, n), a.tag) <==> Goes(lib, n, a)
  {
    var ctx := InboundsOf(lib, o, n);
    ByTagLists(o.inbounds);
    ByTagLists(n.inbounds);
    if a.tag in ctx.new_ {
      EqualIsAlike(lib, a, ctx.new_[a.tag]);
      UsersOnlyIsByClients(lib, a, ctx.new_[a.tag]);
      assert ctx.new_[a.tag] in n.inbounds;
    }
  }

  lemma PutsInboundIff(lib: Library, o: Config, n: Config, b: Inbound)
    requires ByTag(o.inbounds).Some? && ByTag(n.inbounds).Some?
    ensures PutsInbound(lib, InboundsOf(lib, o, n), b) <==> b in n.inbounds && Comes(lib, o, b)
  {
    var ctx := InboundsOf(lib, o, n);
    ByTagLists(o.inbounds);
    ByTagLists(n.inbounds);
    assert b in n.inbounds <==> b.tag in ctx.new_ && ctx.new_[b.tag] == b;
    if b.tag in ctx.old_ {
      EqualIsAlike(lib, ctx.old_[b.tag], b);
      UsersOnlyIsByClients(lib, ctx.old_[b.tag], b);
      assert ctx.old_[b.tag] in o.inbounds;
    }
  }

  lemma UserOpsIff(lib: Library, o: Config, n: Config, a: Inbound, b: Inbound, op: UserOp)
    requires ByTag(o.inbounds).Some? && ByTag(n.inbounds).Some?
    requires a in o.inbounds && b in n.inbounds && a.tag == b.tag == op.tag
    ensures DropsUser(lib, InboundsOf(lib, o, n), op) <==> TakesOut(lib, a, b, op)
    ensures PutsUser(lib, InboundsOf(lib, o, n), op) <==> PutsIn(lib, a, b, op)
  {
    ByTagLists(o.inbounds);
    ByTagLists(n.inbounds);
    EqualIsAlike(lib, a, b);
    RemovesIsTakesOut(lib, a, b, op);
    AddsIsPutsIn(lib, a, b, op);
    if Alike(lib, a, b) {
      forall was, now | AlikeButClients(lib, a, b, was, now) ensures was == now {
        AlikeHaveSameClients(lib, a, b, was, now);
      }
    }
  }

  predicate Pair(o: Config, n: Config, a: Inbound, b: Inbound, t: string) {
    a in o.inbounds && b in n.inbounds && a.tag == b.tag == t
  }

  ghost predicate SomeTakesOut(lib: Library, o: Config, n: Config, op: UserOp) {
    exists a, b :: Pair(o, n, a, b, op.tag) && TakesOut(lib, a, b, op)
  }

  ghost predicate SomePutsIn(lib: Library, o: Config, n: Config, op: UserOp) {
    exists a, b :: Pair(o, n, a, b, op.tag) && PutsIn(lib, a, b, op)
  }

  /** What the plan says of inbounds and users, in terms of the two lists. */
  ghost predicate PlansInbounds(lib: Library, o: Config, n: Config, ops: Ops) {
    && (forall t :: t in ops.removedInbounds <==> SomeGoes(lib, o, n, t))
    && (forall b :: b in ops.addedInbounds <==> b in n.inbounds && Comes(lib, o, b))
    && (forall op :: op in ops.removedUsers <==> SomeTakesOut(lib, o, n, op))
    && (forall op :: op in ops.addedUsers <==> SomePutsIn(lib, o, n, op))
    && Distinct(ops.removedInbounds) && Distinct(ops.addedInbounds)
    && Distinct(ops.removedUsers) && Distinct(ops.addedUsers)
  }

  ghost predicate SomeGoes(lib: Library, o: Config, n: Config, t: string) {
    exists a <- o.inbounds :: a.tag == t && Goes(lib, n, a)
  }

  lemma TagOfPlan(lib: Library, o: Config, n: Config, t: string)
    requires ByTag(o.inbounds).Some? && ByTag(n.inbounds).Some?
    ensures DropsInbound(lib, InboundsOf(lib, o, n), t) <==> SomeGoes(lib, o, n, t)
  {
    ByTagLists(o.inbounds);
    ByTagLists(n.inbounds);
    forall a | a in o.inbounds && a.tag == t ensures DropsInbound(lib, InboundsOf(lib, o, n), t) <==> Goes(lib, n, a) {
      DropsInboundIff(lib, o, n, a);
    }
  }

  lemma UsersOfPlan(lib: Library, o: Config, n: Config, op: UserOp)
    requires ByTag(o.inbounds).Some? && ByTag(n.inbounds).Some?
    ensures DropsUser(lib, InboundsOf(lib, o, n), op) <==> SomeTakesOut(lib, o, n, op)
    ensures PutsUser(lib, InboundsOf(lib, o, n), op) <==> SomePutsIn(lib, o, n, op)
  {
    var ctx := InboundsOf(lib, o, n);
    ByTagLists(o.inbounds);
    ByTagLists(n.inbounds);
    if op.tag in ctx.old_ && op.tag in ctx.new_ {
      var a, b := ctx.old_[op.tag], ctx.new_[op.tag];
      assert Pair(o, n, a, b, op.tag);
      UserOpsIff(lib, o, n, a, b, op);
      assert forall c, d | Pair(o, n, c, d, op.tag) :: c == a && d == b;
    } else {
      assert forall c, d :: !Pair(o, n, c, d, op.tag);
    }
  }

  lemma InboundPlanIff(lib: Library, o: Config, n: Config, ops: Ops)
    requires ByTag(o.inbounds).Some? && ByTag(n.inbounds).Some?
    ensures ListsInbounds(lib, InboundsOf(lib, o, n), ops, Tags(o.inbounds) + Tags(n.inbounds))
       <==> PlansInbounds(lib, o, n, ops)
  {
    var ctx := InboundsOf(lib, o, n);
    ByTagLists(o.inbounds);
    ByTagLists(n.inbounds);
    forall t ensures DropsInbound(lib, ctx, t) <==> SomeGoes(lib, o, n, t) {
      TagOfPlan(lib, o, n, t);
    }
    forall b ensures PutsInbound(lib, ctx, b) <==> b in n.inbounds && Comes(lib, o, b) {
      PutsInboundIff(lib, o, n, b);
    }
    forall op
      ensures DropsUser(lib, ctx, op) <==> SomeTakesOut(lib, o, n, op)
      ensures PutsUser(lib, ctx, op) <==> SomePutsIn(lib, o, n, op)
    {
      UsersOfPlan(lib, o, n, op);
    }
    SameLists(lib, o, n, ctx, ops, Tags(o.inbounds) + Tags(n.inbounds));
  }

  lemma SameLists(lib: Library, o: Config, n: Config, ctx: Inbounds, ops: Ops, tags: set<string>)
    requires tags == ctx.old_.Keys + ctx.new_.Keys
    requires forall t :: DropsInbound(lib, ctx, t) <==> SomeGoes(lib, o, n, t)
    requires forall b :: PutsInbound(lib, ctx, b) <==> b in n.inbounds && Comes(lib, o, b)
    requires forall op :: DropsUser(lib, ctx, op) <==> SomeTakesOut(lib, o, n, op)
    requires forall op :: PutsUser(lib, ctx, op) <==> SomePutsIn(lib, o, n, op)
    ensures ListsInbounds(lib, ctx, ops, tags) <==> PlansInbounds(lib, o, n, ops)
  {
    assert forall t :: DropsInbound(lib, ctx, t) ==> t in tags;
    assert forall b :: PutsInbound(lib, ctx, b) ==> b.tag in tags;
    assert forall op :: DropsUser(lib, ctx, op) || PutsUser(lib, ctx, op) ==> op.tag in tags;
    if ListsInbounds(lib, ctx, ops, tags) {
      assert PlansInbounds(lib, o, n, ops);
    }
    if PlansInbounds(lib, o, n, ops) {
      assert ListsInbounds(lib, ctx, ops, tags);
    }
  }

  ghost predicate SomeUnlike(es: seq<Outbound>, ds: seq<Outbound>, t: string) {
    exists e <- es :: e.tag == t && !HasLike(ds, e)
  }

  ghost predicate SomeNew(es: seq<Outbound>, ds: seq<Outbound>, raw: Raw) {
    exists e <- es :: e.raw == raw && !HasLike(ds, e)
  }

  /** What the plan says of outbounds. */
  ghost predicate PlansOutbounds(oe: seq<Outbound>, ne: seq<Outbound>, ops: Ops) {
    && (forall t :: t in ops.removedOutbounds <==> SomeUnlike(oe, ne, t))
    && (forall raw :: raw in ops.addedOutbounds <==> SomeNew(ne, oe, raw))
    && Distinct(ops.removedOutbounds) && Distinct(ops.addedOutbounds)
  }

  lemma OutboundPlanIff(lib: Library, oe: seq<Outbound>, ne: seq<Outbound>, ops: Ops)
    requires WellTagged(lib, oe) && WellTagged(lib, ne)
    ensures ListsOutbounds(OutboundMap(oe), OutboundMap(ne), lib, ops) <==> PlansOutbounds(oe, ne, ops)
  {
    var om, nm := OutboundMap(oe), OutboundMap(ne);
    forall t ensures OutboundDiffers(om, nm, t) <==> SomeUnlike(oe, ne, t) {
      OutboundGoesIff(lib, oe, ne, t);
    }
    forall raw ensures SomeDiffers(nm, om, raw) <==> SomeNew(ne, oe, raw) {
      OutboundComesIff(lib, oe, ne, raw);
    }
    assert forall raw :: SomeDiffers(nm, om, raw) <==> exists t :: OutboundDiffers(nm, om, t) && nm[t].raw == raw;
  }

  ghost predicate SomeDiffers(a: map<string, Outbound>, b: map<string, Outbound>, raw: Raw) {
    exists t :: OutboundDiffers(a, b, t) && a[t].raw == raw
  }

  lemma OutboundGoesIff(lib: Library, oe: seq<Outbound>, ne: seq<Outbound>, t: string)
    requires WellTagged(lib, oe) && WellTagged(lib, ne)
    ensures OutboundDiffers(OutboundMap(oe), OutboundMap(ne), t) <==> SomeUnlike(oe, ne, t)
  {
    OutboundMapLists(lib, oe);
    forall e | e in oe && e.tag == t
      ensures OutboundDiffers(OutboundMap(oe), OutboundMap(ne), t) <==> !HasLike(ne, e)
    {
      DiffersIsUnlike(lib, oe, ne, e);
    }
  }

  lemma OutboundComesIff(lib: Library, oe: seq<Outbound>, ne: seq<Outbound>, raw: Raw)
    requires WellTagged(lib, oe) && WellTagged(lib, ne)
    ensures SomeDiffers(OutboundMap(ne), OutboundMap(oe), raw) <==> SomeNew(ne, oe, raw)
  {
    var om, nm := OutboundMap(oe), OutboundMap(ne);
    OutboundMapLists(lib, ne);
    if SomeDiffers(nm, om, raw) {
      var t :| OutboundDiffers(nm, om, t) && nm[t].raw == raw;
      assert nm[t] in ne && nm[t].tag == t;
      DiffersIsUnlike(lib, ne, oe, nm[t]);
    }
    if SomeNew(ne, oe, raw) {
      var e :| e in ne && e.raw == raw && !HasLike(oe, e);
      DiffersIsUnlike(lib, ne, oe, e);
      assert OutboundDiffers(nm, om, e.tag);
    }
  }

  /** The plan of a change: once each, exactly the operations the differences between the lists ask for. */
  ghost predicate PlanOf(lib: Library, o: Config, n: Config, ops: Ops) {
    && PlansInbounds(lib, o, n, ops)
    && (exists oe, ne :: ListedPlan(lib, o, n, ops, oe, ne))
    && ops.routing == if o.routing == n.routing then None else Some(n.routing)
  }

  ghost predicate ListedPlan(lib: Library, o: Config, n: Config, ops: Ops, oe: seq<Outbound>, ne: seq<Outbound>) {
    Listed(lib, o.outbounds, oe) && Listed(lib, n.outbounds, ne) && PlansOutbounds(oe, ne, ops)
  }

  lemma ListedPlanIff(lib: Library, o: Config, n: Config, ops: Ops)
    requires Addressable(lib, o) && Addressable(lib, n)
    ensures ListsOutbounds(OutboundMap(Outbounds(lib, o.outbounds).value),
                           OutboundMap(Outbounds(lib, n.outbounds).value),
                           lib, ops)
       <==> exists oe, ne :: ListedPlan(lib, o, n, ops, oe, ne)
  {
    var oe, ne := Outbounds(lib, o.outbounds).value, Outbounds(lib, n.outbounds).value;
    OutboundsWellTagged(lib, o.outbounds);
    OutboundsWellTagged(lib, n.outbounds);
    OutboundPlanIff(lib, oe, ne, ops);
    ListedIff(lib, o.outbounds, oe);
    ListedIff(lib, n.outbounds, ne);
    if x, y :| ListedPlan(lib, o, n, ops, x, y) {
      ListedIff(lib, o.outbounds, x);
      ListedIff(lib, n.outbounds, y);
    }
    assert ListedPlan(lib, o, n, ops, oe, ne) <==> PlansOutbounds(oe, ne, ops);
  }

  lemma PlanIff(lib: Library, o: Config, n: Config, ops: Ops)
    requires Addressable(lib, o) && Addressable(lib, n)
    ensures IsHotDiff(lib, o, n, ops) <==> PlanOf(lib, o, n, ops)
  {
    InboundPlanIff(lib, o, n, ops);
    ListedPlanIff(lib, o, n, ops);
  }
}
