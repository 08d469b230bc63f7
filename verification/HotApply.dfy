/**
  Executing a hot diff (the order of tryHotApply, internal/web/service/xray.go:1404-1448) on
  the runtime state a configuration describes.  The executor here is strict: an operation
  that finds its target missing, or already there, fails the whole run.

  HotApplyCorrect: every successful plan, in any order inside each list, runs without such a
  failure and ends in the state of the new configuration.
*/
module HotApply {
  import opened Wrappers
  import opened Sequences
  import opened HotConfig
  import opened HotDiff

  // ---------------------------------------------------------------- runtime state

  datatype Settings = UserBased(rest: map<string, Json>) | Plain(section: Section)

  datatype Core = Core(
    port: int, protocol: string, listen: Section, stream: Section, sniffing: Section, settings: Settings)

  datatype Routing =
    | NoRouting
    | Routing(rest: RoutingRest, rules: Option<Json>, balancers: Option<Json>)
    | UnreadableRouting(raw: Raw)

  type UserKey = (string, string)

  /** The sections a core reads once, when it starts. */
  datatype Fixed = Fixed(
    log: Section, dns: Section, transport: Section, policy: Section, api: Section, stats: Section, reverse: Section,
    fakedns: Section, observatory: Section, burstObservatory: Section, metrics: Section, geodata: Section,
    env: Section)

  datatype Runtime = Runtime(
    fixed: Fixed, inbounds: map<string, Core>, users: map<UserKey, Json>,
    outbounds: map<string, Canon>, default_: Option<string>, routing: Routing)

  function CoreOf(lib: Library, ib: Inbound): Core {
    Core(ib.port, ib.protocol, SectionOf(lib, ib.listen), SectionOf(lib, ib.stream), SectionOf(lib, ib.sniffing),
         if ib.protocol in USER_DIFFABLE && SplitSettings(lib, ib.settings).Some? then
           UserBased(SplitSettings(lib, ib.settings).value.rest)
         else Plain(SectionOf(lib, ib.settings)))
  }

  /** The users a handler can be asked about one by one. */
  function UsersIn(lib: Library, ib: Inbound): map<string, Json> {
    if ib.protocol in USER_DIFFABLE then ClientsOf(lib, ib) else map[]
  }

  function UserKeys(lib: Library, m: map<string, Inbound>): (keys: set<UserKey>)
    ensures forall k :: k in keys <==> k.0 in m && k.1 in UsersIn(lib, m[k.0])
  {
    set t, e | t in m && e in UsersIn(lib, m[t]) :: (t, e)
  }

  function AllUsers(lib: Library, m: map<string, Inbound>): (users: map<UserKey, Json>)
    ensures users.Keys == UserKeys(lib, m)
    ensures forall k | k in users :: users[k] == UsersIn(lib, m[k.0])[k.1]
  {
    map k | k in UserKeys(lib, m) :: UsersIn(lib, m[k.0])[k.1]
  }

  function AllCores(lib: Library, m: map<string, Inbound>): map<string, Core> {
    map t | t in m :: CoreOf(lib, m[t])
  }

  function Norms(m: map<string, Outbound>): map<string, Canon> {
    map t | t in m :: m[t].norm
  }

  function Member(fields: map<string, Json>, key: string): Option<Json> {
    if key in fields then Some(fields[key]) else None
  }

  function RoutingOf(lib: Library, raw: Raw): Routing {
    if raw == "" then NoRouting
    else match lib.decode(raw)
      case Some(Null) => Routing(NullDocument, None, None)
      case Some(Obj(fields)) =>
        Routing(Fields(fields - {"rules", "balancers"}), Member(fields, "rules"), Member(fields, "balancers"))
      case _ => UnreadableRouting(raw)
  }

  function FirstTag(es: seq<Outbound>): Option<string> {
    if es == [] then None else Some(es[0].tag)
  }

  function FixedSections(lib: Library, c: Config): Fixed {
    Fixed(SectionOf(lib, c.log), SectionOf(lib, c.dns), SectionOf(lib, c.transport), SectionOf(lib, c.policy),
          SectionOf(lib, c.api), SectionOf(lib, c.stats), SectionOf(lib, c.reverse), SectionOf(lib, c.fakedns),
          SectionOf(lib, c.observatory), SectionOf(lib, c.burstObservatory), SectionOf(lib, c.metrics),
          SectionOf(lib, c.geodata), SectionOf(lib, c.env))
  }

  /** The runtime state of a core started on `c`. */
  function StateOf(lib: Library, c: Config): Runtime
    requires Addressable(lib, c)
  {
    var m, es := ByTag(c.inbounds).value, Outbounds(lib, c.outbounds).value;
    Runtime(FixedSections(lib, c), AllCores(lib, m), AllUsers(lib, m),
            Norms(OutboundMap(es)), FirstTag(es), RoutingOf(lib, c.routing))
  }

  // ---------------------------------------------------------------- executor

  function RemoveUsers(rt: Runtime, ops: seq<UserOp>): Option<Runtime>
    decreases |ops|
  {
    if ops == [] then Some(rt)
    else
      var key := (ops[0].tag, ops[0].email);
      if ops[0].tag in rt.inbounds && key in rt.users then
        RemoveUsers(rt.(users := rt.users - {key}), ops[1..])
      else None
  }

  function Without(users: map<UserKey, Json>, tags: set<string>): map<UserKey, Json> {
    map k | k in users && k.0 !in tags :: users[k]
  }

  function RemoveInbounds(rt: Runtime, tags: seq<string>): Option<Runtime>
    decreases |tags|
  {
    if tags == [] then Some(rt)
    else if tags[0] in rt.inbounds then
      RemoveInbounds(rt.(inbounds := rt.inbounds - {tags[0]}, users := Without(rt.users, {tags[0]})), tags[1..])
    else None
  }

  function RemoveOutbounds(rt: Runtime, tags: seq<string>): Option<Runtime>
    decreases |tags|
  {
    if tags == [] then Some(rt)
    else if tags[0] in rt.outbounds then
      RemoveOutbounds(
        rt.(outbounds := rt.outbounds - {tags[0]},
            default_ := if rt.default_ == Some(tags[0]) then None else rt.default_), tags[1..])
    else None
  }

  /** A core without a default handler takes the first one added. */
  function AddOutbounds(lib: Library, rt: Runtime, raws: seq<Raw>): Option<Runtime>
    decreases |raws|
  {
    if raws == [] then Some(rt)
    else match EntryOf(lib, raws[0])
      case None => None
      case Some(e) =>
        if e.tag in rt.outbounds then None
        else AddOutbounds(lib,
               rt.(outbounds := rt.outbounds[e.tag := e.norm],
                   default_ := if rt.default_.None? then Some(e.tag) else rt.default_), raws[1..])
  }

  function AddInbounds(lib: Library, rt: Runtime, ibs: seq<Inbound>): Option<Runtime>
    decreases |ibs|
  {
    if ibs == [] then Some(rt)
    else if ibs[0].tag in rt.inbounds then None
    else
      var ib := ibs[0];
      AddInbounds(lib,
        rt.(inbounds := rt.inbounds[ib.tag := CoreOf(lib, ib)],
            users := rt.users + AllUsers(lib, map[ib.tag := ib])), ibs[1..])
  }

  function AddUsers(rt: Runtime, ops: seq<UserOp>): Option<Runtime>
    decreases |ops|
  {
    if ops == [] then Some(rt)
    else
      var key := (ops[0].tag, ops[0].email);
      if ops[0].tag in rt.inbounds && key !in rt.users && ops[0].user.Some? then
        AddUsers(rt.(users := rt.users[key := ops[0].user.value]), ops[1..])
      else None
  }

  /** ApplyRoutingConfig replaces rules and balancers; it needs a router to talk to. */
  function ApplyRouting(lib: Library, rt: Runtime, routing: Option<Raw>): Option<Runtime> {
    if routing.None? then Some(rt)
    else match (rt.routing, RoutingOf(lib, routing.value))
      case (Routing(rest, _, _), Routing(_, rules, balancers)) =>
        Some(rt.(routing := Routing(rest, rules, balancers)))
      case _ => None
  }

  /** Removals of users, inbounds and outbounds. */
  function Remove(rt: Runtime, ops: Ops): Option<Runtime> {
    var s1 := RemoveUsers(rt, ops.removedUsers);
    if s1.None? then None
    else
      var s2 := RemoveInbounds(s1.value, ops.removedInbounds);
      if s2.None? then None else RemoveOutbounds(s2.value, ops.removedOutbounds)
  }

  /** Additions of outbounds, inbounds and users. */
  function Add(lib: Library, rt: Runtime, ops: Ops): Option<Runtime> {
    var s1 := AddOutbounds(lib, rt, ops.addedOutbounds);
    if s1.None? then None
    else
      var s2 := AddInbounds(lib, s1.value, ops.addedInbounds);
      if s2.None? then None else AddUsers(s2.value, ops.addedUsers)
  }

  /** All removals, then all additions, then routing. */
  function Execute(lib: Library, rt: Runtime, ops: Ops): Option<Runtime> {
    var removed := Remove(rt, ops);
    if removed.None? then None
    else
      var added := Add(lib, removed.value, ops);
      if added.None? then None else ApplyRouting(lib, added.value, ops.routing)
  }

  // ---------------------------------------------------------------- what a whole list does

  function Keys(ops: seq<UserOp>): set<UserKey> {
    set op | op in ops :: (op.tag, op.email)
  }

  predicate DistinctKeys(ops: seq<UserOp>) {
    forall i, j :: 0 <= i < j < |ops| ==> (ops[i].tag, ops[i].email) != (ops[j].tag, ops[j].email)
  }

  lemma DistinctKeysTail(ops: seq<UserOp>)
    requires DistinctKeys(ops) && ops != []
    ensures DistinctKeys(ops[1..]) && (ops[0].tag, ops[0].email) !in Keys(ops[1..])
    ensures Keys(ops) == {(ops[0].tag, ops[0].email)} + Keys(ops[1..])
    ensures forall op | op in ops[1..] :: op in ops && (op.tag, op.email) != (ops[0].tag, ops[0].email)
  {
    assert ops == [ops[0]] + ops[1..];
  }

  lemma {:induction false} RemoveUsersAll(rt: Runtime, ops: seq<UserOp>)
    requires DistinctKeys(ops)
    requires forall op | op in ops :: op.tag in rt.inbounds && (op.tag, op.email) in rt.users
    ensures RemoveUsers(rt, ops) == Some(rt.(users := rt.users - Keys(ops)))
    decreases |ops|
  {
    if ops == [] {
      assert rt.users - Keys(ops) == rt.users;
    } else {
      var key, tail := (ops[0].tag, ops[0].email), ops[1..];
      DistinctKeysTail(ops);
      RemoveUsersAll(rt.(users := rt.users - {key}), tail);
      assert rt.users - {key} - Keys(tail) == rt.users - Keys(ops);
    }
  }

  lemma {:induction false} RemoveInboundsAll(rt: Runtime, tags: seq<string>)
    requires Distinct(tags) && forall t | t in tags :: t in rt.inbounds
    ensures RemoveInbounds(rt, tags)
         == Some(rt.(inbounds := rt.inbounds - Elems(tags), users := Without(rt.users, Elems(tags))))
    decreases |tags|
  {
    if tags == [] {
      assert rt.inbounds - Elems(tags) == rt.inbounds;
      assert Without(rt.users, Elems(tags)) == rt.users;
    } else {
      var t, tail := tags[0], tags[1..];
      DistinctTail(tags);
      RemoveInboundsAll(rt.(inbounds := rt.inbounds - {t}, users := Without(rt.users, {t})), tail);
      assert Elems(tags) == {t} + Elems(tail);
      assert rt.inbounds - {t} - Elems(tail) == rt.inbounds - Elems(tags);
      assert Without(Without(rt.users, {t}), Elems(tail)) == Without(rt.users, Elems(tags));
    }
  }

  lemma {:induction false} RemoveOutboundsAll(rt: Runtime, tags: seq<string>)
    requires Distinct(tags) && forall t | t in tags :: t in rt.outbounds && rt.default_ != Some(t)
    ensures RemoveOutbounds(rt, tags) == Some(rt.(outbounds := rt.outbounds - Elems(tags)))
    decreases |tags|
  {
    if tags == [] {
      assert rt.outbounds - Elems(tags) == rt.outbounds;
    } else {
      var t, tail := tags[0], tags[1..];
      DistinctTail(tags);
      RemoveOutboundsAll(rt.(outbounds := rt.outbounds - {t}), tail);
      assert Elems(tags) == {t} + Elems(tail);
      assert rt.outbounds - {t} - Elems(tail) == rt.outbounds - Elems(tags);
    }
  }

  /** `m` extends `base` by the entries of `n` at `extra`. */
  ghost predicate Extends<K, V>(base: map<K, V>, extra: set<K>, n: map<K, V>, m: map<K, V>) {
    && m.Keys == base.Keys + extra
    && (forall k | k in base.Keys - extra :: m[k] == base[k])
    && (forall k | k in extra :: k in n && m[k] == n[k])
  }

  function RawTags(lib: Library, raws: seq<Raw>): set<string> {
    set raw | raw in raws && EntryOf(lib, raw).Some? :: EntryOf(lib, raw).value.tag
  }

  lemma {:induction false} AddOutboundsAll(lib: Library, rt: Runtime, raws: seq<Raw>, n: map<string, Outbound>)
    requires Distinct(raws) && rt.default_.Some?
    requires forall raw | raw in raws ::
      EntryOf(lib, raw).Some? && var e := EntryOf(lib, raw).value; e.tag !in rt.outbounds && e.tag in n && n[e.tag] == e
    ensures AddOutbounds(lib, rt, raws).Some?
    ensures var r := AddOutbounds(lib, rt, raws).value;
      r == rt.(outbounds := r.outbounds) && Extends(rt.outbounds, RawTags(lib, raws), Norms(n), r.outbounds)
    decreases |raws|
  {
    if raws != [] {
      var e, tail := EntryOf(lib, raws[0]).value, raws[1..];
      DistinctTail(raws);
      assert raws[0] in raws;
      var next := rt.(outbounds := rt.outbounds[e.tag := e.norm]);
      forall raw | raw in tail ensures EntryOf(lib, raw).value.tag !in next.outbounds {
        assert raw == EntryOf(lib, raw).value.raw != e.raw;
      }
      AddOutboundsAll(lib, next, tail, n);
      assert RawTags(lib, raws) == {e.tag} + RawTags(lib, tail);
    }
  }

  lemma {:induction false} AddInboundsAll(lib: Library, rt: Runtime, ibs: seq<Inbound>, n: map<string, Inbound>)
    requires Distinct(ibs)
    requires forall ib | ib in ibs :: ib.tag !in rt.inbounds && ib.tag in n && n[ib.tag] == ib
    requires forall k | k in rt.users :: k.0 in rt.inbounds
    ensures AddInbounds(lib, rt, ibs).Some?
    ensures var r := AddInbounds(lib, rt, ibs).value;
      && r == rt.(inbounds := r.inbounds, users := r.users)
      && Extends(rt.inbounds, Tags(ibs), AllCores(lib, n), r.inbounds)
      && Extends(rt.users, UserKeysOf(lib, n, Tags(ibs)), AllUsers(lib, n), r.users)
    decreases |ibs|
  {
    if ibs != [] {
      var ib, tail := ibs[0], ibs[1..];
      DistinctTail(ibs);
      assert ib in ibs;
      var own, core := AllUsers(lib, map[ib.tag := ib]), map[ib.tag := CoreOf(lib, ib)];
      var next := rt.(inbounds := rt.inbounds[ib.tag := CoreOf(lib, ib)], users := rt.users + own);
      UpdateIsUnion(rt.inbounds, ib.tag, CoreOf(lib, ib));
      TagsTail(ibs, n);
      AddInboundsAll(lib, next, tail, n);
      var r := AddInbounds(lib, next, tail).value;
      assert AddInbounds(lib, rt, ibs) == Some(r);
      UserKeysStep(lib, n, ib, Tags(tail));
      ExtendsTwice(rt.inbounds, core, Tags(tail), AllCores(lib, n), r.inbounds);
      ExtendsTwice(rt.users, own, UserKeysOf(lib, n, Tags(tail)), AllUsers(lib, n), r.users);
    }
  }

  lemma TagsTail(ibs: seq<Inbound>, n: map<string, Inbound>)
    requires ibs != [] && Distinct(ibs) && forall ib | ib in ibs :: ib.tag in n && n[ib.tag] == ib
    ensures Tags(ibs) == {ibs[0].tag} + Tags(ibs[1..])
    ensures forall ib | ib in ibs[1..] :: ib.tag != ibs[0].tag
  {
    DistinctTail(ibs);
    assert ibs[0] in ibs;
  }

  function UserKeysOf(lib: Library, m: map<string, Inbound>, tags: set<string>): set<UserKey> {
    set k | k in UserKeys(lib, m) && k.0 in tags
  }

  lemma UserKeysStep(lib: Library, n: map<string, Inbound>, ib: Inbound, tags: set<string>)
    requires ib.tag in n && n[ib.tag] == ib
    ensures UserKeys(lib, map[ib.tag := ib]) == UserKeysOf(lib, n, {ib.tag})
    ensures UserKeysOf(lib, n, {ib.tag} + tags) == UserKeysOf(lib, n, {ib.tag}) + UserKeysOf(lib, n, tags)
  {
  }

  lemma UpdateIsUnion<K, V>(m: map<K, V>, k: K, v: V)
    ensures m[k := v] == m + map[k := v] && map[k := v].Keys == {k}
  {
  }

  /** Extending twice from the same source is extending once. */
  lemma ExtendsTwice<K, V>(base: map<K, V>, own: map<K, V>, extra: set<K>, n: map<K, V>, r: map<K, V>)
    requires forall k | k in own :: k in n && own[k] == n[k]
    requires Extends(base + own, extra, n, r)
    ensures Extends(base, own.Keys + extra, n, r)
  {
    forall k | k in own.Keys + extra ensures k in n && r[k] == n[k] {
      if k !in extra {
        assert (base + own)[k] == own[k];
      }
    }
  }

  lemma {:induction false} AddUsersAll(rt: Runtime, ops: seq<UserOp>, n: map<UserKey, Json>)
    requires DistinctKeys(ops)
    requires forall op | op in ops ::
      && op.tag in rt.inbounds && (op.tag, op.email) !in rt.users
      && (op.tag, op.email) in n && op.user == Some(n[(op.tag, op.email)])
    ensures AddUsers(rt, ops).Some?
    ensures var r := AddUsers(rt, ops).value;
      r == rt.(users := r.users) && Extends(rt.users, Keys(ops), n, r.users)
    decreases |ops|
  {
    if ops != [] {
      var key, tail := (ops[0].tag, ops[0].email), ops[1..];
      DistinctKeysTail(ops);
      assert ops[0] in ops;
      var own := map[key := n[key]];
      var next := rt.(users := rt.users[key := n[key]]);
      UpdateIsUnion(rt.users, key, n[key]);
      AddUsersAll(next, tail, n);
      var r := AddUsers(next, tail).value;
      assert AddUsers(rt, ops) == Some(r);
      ExtendsTwice(rt.users, own, Keys(tail), n, r.users);
    }
  }
}
