/** Correctness of the hot-apply planner: diff, then patch, is the identity on runtime states. */
module HotCorrect {
  import opened Wrappers
  import opened Sequences
  import opened HotConfig
  import opened HotDiff
  import opened HotApply

  // ---------------------------------------------------------------- tags the plan leaves alone

  lemma SameSplit(lib: Library, a: Raw, b: Raw)
    requires RawEqual(lib, a, b)
    ensures SplitSettings(lib, a) == SplitSettings(lib, b)
  {
  }

  lemma EqualInbounds(lib: Library, a: Inbound, b: Inbound)
    requires InboundEqual(lib, a, b)
    ensures CoreOf(lib, a) == CoreOf(lib, b) && UsersIn(lib, a) == UsersIn(lib, b)
  {
    SameSplit(lib, a.settings, b.settings);
    RawEqualIsSameSection(lib, a.listen, b.listen);
    RawEqualIsSameSection(lib, a.settings, b.settings);
    RawEqualIsSameSection(lib, a.stream, b.stream);
    RawEqualIsSameSection(lib, a.sniffing, b.sniffing);
  }

  lemma UsersOnlyKeepsCore(lib: Library, a: Inbound, b: Inbound)
    requires UsersOnly(lib, a, b)
    ensures CoreOf(lib, a) == CoreOf(lib, b)
    ensures UsersIn(lib, a) == ClientsOf(lib, a) && UsersIn(lib, b) == ClientsOf(lib, b)
  {
    RawEqualIsSameSection(lib, a.listen, b.listen);
    RawEqualIsSameSection(lib, a.stream, b.stream);
    RawEqualIsSameSection(lib, a.sniffing, b.sniffing);
  }

  // ---------------------------------------------------------------- inbounds and users

  ghost predicate AgreeAt<K, V>(a: map<K, V>, b: map<K, V>, k: K) {
    (k in a <==> k in b) && (k in a ==> a[k] == b[k])
  }

  lemma AgreeEverywhere<K(!new), V>(a: map<K, V>, b: map<K, V>)
    requires forall k :: AgreeAt(a, b, k)
    ensures a == b
  {
    forall k ensures (k in a <==> k in b) && (k in a ==> a[k] == b[k]) {
      assert AgreeAt(a, b, k);
    }
  }

  /** A plan context: both indexes keyed by their own tags, and the listed operations. */
  ghost predicate Planned(lib: Library, ctx: Inbounds, ops: Ops) {
    && (forall t | t in ctx.old_ :: ctx.old_[t].tag == t)
    && (forall t | t in ctx.new_ :: ctx.new_[t].tag == t)
    && ListsInbounds(lib, ctx, ops, ctx.old_.Keys + ctx.new_.Keys)
  }

  lemma OpsHaveDistinctKeys(lib: Library, ctx: Inbounds, ops: Ops)
    requires Planned(lib, ctx, ops)
    ensures DistinctKeys(ops.removedUsers) && DistinctKeys(ops.addedUsers)
  {
    var r, a := ops.removedUsers, ops.addedUsers;
    forall i, j | 0 <= i < j < |r| ensures (r[i].tag, r[i].email) != (r[j].tag, r[j].email) {
      assert DropsUser(lib, ctx, r[i]) && DropsUser(lib, ctx, r[j]);
    }
    forall i, j | 0 <= i < j < |a| ensures (a[i].tag, a[i].email) != (a[j].tag, a[j].email) {
      assert PutsUser(lib, ctx, a[i]) && PutsUser(lib, ctx, a[j]);
    }
  }

  /** User removals name a present user of a surviving inbound. */
  lemma RemovalsEnabled(lib: Library, ctx: Inbounds, ops: Ops)
    requires Planned(lib, ctx, ops)
    ensures forall op | op in ops.removedUsers ::
      op.tag in ctx.old_ && op.tag in ctx.new_ && (op.tag, op.email) in AllUsers(lib, ctx.old_)
  {
    forall op | op in ops.removedUsers
      ensures op.tag in ctx.old_ && op.tag in ctx.new_ && (op.tag, op.email) in AllUsers(lib, ctx.old_)
    {
      assert DropsUser(lib, ctx, op);
      UsersOnlyKeepsCore(lib, ctx.old_[op.tag], ctx.new_[op.tag]);
    }
  }

  lemma RemovedKeys(lib: Library, ctx: Inbounds, ops: Ops, k: UserKey)
    requires Planned(lib, ctx, ops)
    ensures k in Keys(ops.removedUsers) <==>
      ByUsers(lib, ctx, k.0) && Differs(ClientsOf(lib, ctx.old_[k.0]), ClientsOf(lib, ctx.new_[k.0]), k.1)
  {
    if ByUsers(lib, ctx, k.0) && Differs(ClientsOf(lib, ctx.old_[k.0]), ClientsOf(lib, ctx.new_[k.0]), k.1) {
      var op := UserOp(k.0, ctx.old_[k.0].protocol, k.1, None);
      assert DropsUser(lib, ctx, op);
      assert op in ops.removedUsers;
    }
  }

  lemma AddedKeys(lib: Library, ctx: Inbounds, ops: Ops, k: UserKey)
    requires Planned(lib, ctx, ops)
    ensures k in Keys(ops.addedUsers) <==>
      ByUsers(lib, ctx, k.0) && Differs(ClientsOf(lib, ctx.new_[k.0]), ClientsOf(lib, ctx.old_[k.0]), k.1)
  {
    if ByUsers(lib, ctx, k.0) && Differs(ClientsOf(lib, ctx.new_[k.0]), ClientsOf(lib, ctx.old_[k.0]), k.1) {
      var op := UserOp(k.0, ctx.old_[k.0].protocol, k.1, Some(ClientsOf(lib, ctx.new_[k.0])[k.1]));
      assert PutsUser(lib, ctx, op);
      assert op in ops.addedUsers;
    }
  }

  lemma AddedTags(lib: Library, ctx: Inbounds, ops: Ops, t: string)
    requires Planned(lib, ctx, ops)
    ensures t in Tags(ops.addedInbounds) <==> Replaced(lib, ctx, t) || Fresh(ctx, t)
  {
    if Replaced(lib, ctx, t) || Fresh(ctx, t) {
      assert PutsInbound(lib, ctx, ctx.new_[t]);
      assert ctx.new_[t] in ops.addedInbounds;
    }
  }

  /** The users left after all removals. */
  function UsersLeft(lib: Library, ctx: Inbounds, ops: Ops): map<UserKey, Json> {
    Without(AllUsers(lib, ctx.old_) - Keys(ops.removedUsers), Elems(ops.removedInbounds))
  }

  /** The handlers after additions are those of the new configuration. */
  lemma InboundsReached(lib: Library, ctx: Inbounds, ops: Ops, r: map<string, Core>)
    requires Planned(lib, ctx, ops)
    requires Extends(AllCores(lib, ctx.old_) - Elems(ops.removedInbounds), Tags(ops.addedInbounds),
                     AllCores(lib, ctx.new_), r)
    ensures r == AllCores(lib, ctx.new_)
  {
    forall t ensures AgreeAt(r, AllCores(lib, ctx.new_), t) {
      AddedTags(lib, ctx, ops, t);
      if t in ctx.old_ && t in ctx.new_ && t !in Tags(ops.addedInbounds) {
        if Changed(lib, ctx, t) {
          UsersOnlyKeepsCore(lib, ctx.old_[t], ctx.new_[t]);
        } else {
          EqualInbounds(lib, ctx.old_[t], ctx.new_[t]);
        }
      }
    }
    AgreeEverywhere(r, AllCores(lib, ctx.new_));
  }

  lemma LeftKey(lib: Library, ctx: Inbounds, ops: Ops, k: UserKey)
    requires Planned(lib, ctx, ops)
    ensures k in UsersLeft(lib, ctx, ops) <==>
      && k in AllUsers(lib, ctx.old_) && k.0 in ctx.new_ && !Replaced(lib, ctx, k.0)
      && (k in AllUsers(lib, ctx.new_) && AllUsers(lib, ctx.new_)[k] == AllUsers(lib, ctx.old_)[k])
    ensures k in UsersLeft(lib, ctx, ops) ==> UsersLeft(lib, ctx, ops)[k] == AllUsers(lib, ctx.old_)[k]
  {
    RemovedKeys(lib, ctx, ops, k);
    if k in AllUsers(lib, ctx.old_) && k.0 in ctx.new_ {
      if ByUsers(lib, ctx, k.0) {
        UsersOnlyKeepsCore(lib, ctx.old_[k.0], ctx.new_[k.0]);
      } else if !Changed(lib, ctx, k.0) {
        EqualInbounds(lib, ctx.old_[k.0], ctx.new_[k.0]);
      }
    }
  }

  /** User additions name an absent user, with the value the new configuration gives it. */
  lemma AdditionsEnabled(lib: Library, ctx: Inbounds, ops: Ops, users: map<UserKey, Json>)
    requires Planned(lib, ctx, ops)
    requires Extends(UsersLeft(lib, ctx, ops), UserKeysOf(lib, ctx.new_, Tags(ops.addedInbounds)),
                     AllUsers(lib, ctx.new_), users)
    ensures forall op | op in ops.addedUsers ::
      && op.tag in ctx.new_ && (op.tag, op.email) !in users
      && (op.tag, op.email) in AllUsers(lib, ctx.new_) && op.user == Some(AllUsers(lib, ctx.new_)[(op.tag, op.email)])
  {
    forall op | op in ops.addedUsers
      ensures op.tag in ctx.new_ && (op.tag, op.email) !in users
      ensures (op.tag, op.email) in AllUsers(lib, ctx.new_)
        && op.user == Some(AllUsers(lib, ctx.new_)[(op.tag, op.email)])
    {
      assert PutsUser(lib, ctx, op);
      UsersOnlyKeepsCore(lib, ctx.old_[op.tag], ctx.new_[op.tag]);
      LeftKey(lib, ctx, ops, (op.tag, op.email));
      AddedTags(lib, ctx, ops, op.tag);
    }
  }

  /** A user of the new configuration is kept, comes with a new handler, or is added by itself. */
  lemma KeyIsCovered(lib: Library, ctx: Inbounds, k: UserKey)
    requires k in AllUsers(lib, ctx.new_)
    requires (forall t | t in ctx.old_ :: ctx.old_[t].tag == t) && (forall t | t in ctx.new_ :: ctx.new_[t].tag == t)
    ensures Replaced(lib, ctx, k.0) || Fresh(ctx, k.0)
         || (ByUsers(lib, ctx, k.0) && Differs(ClientsOf(lib, ctx.new_[k.0]), ClientsOf(lib, ctx.old_[k.0]), k.1))
         || (k in AllUsers(lib, ctx.old_) && AllUsers(lib, ctx.new_)[k] == AllUsers(lib, ctx.old_)[k])
  {
    if k.0 in ctx.old_ {
      if ByUsers(lib, ctx, k.0) {
        UsersOnlyKeepsCore(lib, ctx.old_[k.0], ctx.new_[k.0]);
      } else if !Changed(lib, ctx, k.0) {
        EqualInbounds(lib, ctx.old_[k.0], ctx.new_[k.0]);
      }
    }
  }

  lemma LeftOrAdded(lib: Library, ctx: Inbounds, ops: Ops, k: UserKey)
    requires Planned(lib, ctx, ops)
    ensures k in UsersLeft(lib, ctx, ops) ==>
      k in AllUsers(lib, ctx.new_) && UsersLeft(lib, ctx, ops)[k] == AllUsers(lib, ctx.new_)[k]
    ensures k in AllUsers(lib, ctx.new_) ==>
      k in UsersLeft(lib, ctx, ops) || k in UserKeysOf(lib, ctx.new_, Tags(ops.addedInbounds))
        || k in Keys(ops.addedUsers)
    ensures k in Keys(ops.addedUsers) ==> k in AllUsers(lib, ctx.new_)
  {
    LeftKey(lib, ctx, ops, k);
    AddedKeys(lib, ctx, ops, k);
    AddedTags(lib, ctx, ops, k.0);
    if k in AllUsers(lib, ctx.new_) {
      KeyIsCovered(lib, ctx, k);
    }
  }

  lemma UserReached(lib: Library, ctx: Inbounds, ops: Ops, users: map<UserKey, Json>, r: map<UserKey, Json>, k: UserKey)
    requires Planned(lib, ctx, ops)
    requires Extends(UsersLeft(lib, ctx, ops), UserKeysOf(lib, ctx.new_, Tags(ops.addedInbounds)),
                     AllUsers(lib, ctx.new_), users)
    requires Extends(users, Keys(ops.addedUsers), AllUsers(lib, ctx.new_), r)
    ensures AgreeAt(r, AllUsers(lib, ctx.new_), k)
  {
    LeftOrAdded(lib, ctx, ops, k);
  }

  /** The users after all additions are those of the new configuration. */
  lemma UsersReached(lib: Library, ctx: Inbounds, ops: Ops, users: map<UserKey, Json>, r: map<UserKey, Json>)
    requires Planned(lib, ctx, ops)
    requires Extends(UsersLeft(lib, ctx, ops), UserKeysOf(lib, ctx.new_, Tags(ops.addedInbounds)),
                     AllUsers(lib, ctx.new_), users)
    requires Extends(users, Keys(ops.addedUsers), AllUsers(lib, ctx.new_), r)
    ensures r == AllUsers(lib, ctx.new_)
  {
    forall k ensures AgreeAt(r, AllUsers(lib, ctx.new_), k) {
      UserReached(lib, ctx, ops, users, r, k);
    }
    AgreeEverywhere(r, AllUsers(lib, ctx.new_));
  }

  // ---------------------------------------------------------------- outbounds

  lemma DefaultStays(lib: Library, o: seq<Outbound>, n: seq<Outbound>)
    requires WellTagged(lib, o) && WellTagged(lib, n) && SameDefault(o, n)
    ensures FirstTag(o) == FirstTag(n)
    ensures o != [] ==> !OutboundDiffers(OutboundMap(o), OutboundMap(n), o[0].tag)
  {
    OutboundMapLists(lib, o);
    OutboundMapLists(lib, n);
    if o != [] {
      assert o[0] in o && n[0] in n;
    }
  }

  lemma AddedOutboundTags(lib: Library, o: map<string, Outbound>, n: map<string, Outbound>, ops: Ops, t: string)
    requires ListsOutbounds(o, n, lib, ops)
    requires forall u | u in n :: EntryOf(lib, n[u].raw) == Some(n[u]) && n[u].tag == u
    ensures t in RawTags(lib, ops.addedOutbounds) <==> OutboundDiffers(n, o, t)
  {
    if OutboundDiffers(n, o, t) {
      assert n[t].raw in ops.addedOutbounds;
    }
  }

  lemma OutboundsReached(lib: Library, o: map<string, Outbound>, n: map<string, Outbound>, ops: Ops,
                         r: map<string, Canon>)
    requires ListsOutbounds(o, n, lib, ops)
    requires forall u | u in n :: EntryOf(lib, n[u].raw) == Some(n[u]) && n[u].tag == u
    requires Extends(Norms(o) - Elems(ops.removedOutbounds), RawTags(lib, ops.addedOutbounds), Norms(n), r)
    ensures r == Norms(n)
  {
    forall t ensures AgreeAt(r, Norms(n), t) {
      AddedOutboundTags(lib, o, n, ops, t);
    }
    AgreeEverywhere(r, Norms(n));
  }

  lemma WellTaggedEntries(lib: Library, es: seq<Outbound>)
    requires WellTagged(lib, es)
    ensures forall u | u in OutboundMap(es) ::
      EntryOf(lib, OutboundMap(es)[u].raw) == Some(OutboundMap(es)[u]) && OutboundMap(es)[u].tag == u
  {
    OutboundMapLists(lib, es);
  }

  /** The outbound half of the run, from any state with the old outbounds. */
  lemma OutboundHalf(lib: Library, rt: Runtime, o: seq<Outbound>, n: seq<Outbound>, ops: Ops)
    requires WellTagged(lib, o) && WellTagged(lib, n) && SameDefault(o, n)
    requires ListsOutbounds(OutboundMap(o), OutboundMap(n), lib, ops)
    requires rt.outbounds == Norms(OutboundMap(o)) && rt.default_ == FirstTag(o)
    ensures RemoveOutbounds(rt, ops.removedOutbounds).Some?
    ensures AddOutbounds(lib, RemoveOutbounds(rt, ops.removedOutbounds).value, ops.addedOutbounds)
         == Some(rt.(outbounds := Norms(OutboundMap(n)), default_ := FirstTag(n)))
  {
    var om, nm := OutboundMap(o), OutboundMap(n);
    DefaultStays(lib, o, n);
    WellTaggedEntries(lib, n);
    RemoveOutboundsAll(rt, ops.removedOutbounds);
    var left := rt.(outbounds := rt.outbounds - Elems(ops.removedOutbounds));
    if o == [] {
      assert om == map[] && nm == map[];
      NoMembers(ops.addedOutbounds);
      assert left.outbounds == Norms(nm);
    } else {
      AddOutboundsAll(lib, left, ops.addedOutbounds, nm);
      OutboundsReached(lib, om, nm, ops, AddOutbounds(lib, left, ops.addedOutbounds).value.outbounds);
    }
  }

  // ---------------------------------------------------------------- the whole run

  lemma RoutingReached(lib: Library, rt: Runtime, o: Raw, n: Raw)
    requires RoutingApplicable(lib, o, n) && rt.routing == RoutingOf(lib, o)
    ensures ApplyRouting(lib, rt, if o == n then None else Some(n)) == Some(rt.(routing := RoutingOf(lib, n)))
  {
  }

  /** The sections without a reload API have the same meaning exactly when each of them has. */
  lemma StaticsAreFixed(lib: Library, o: Config, n: Config)
    ensures SameStatics(lib, o, n) <==> FixedSections(lib, o) == FixedSections(lib, n)
  {
    var a, b := Statics(o), Statics(n);
    assert a[0] == o.log && a[1] == o.dns && a[2] == o.transport && a[3] == o.policy && a[4] == o.api
      && a[5] == o.stats;
    assert a[6] == o.reverse && a[7] == o.fakedns && a[8] == o.observatory && a[9] == o.burstObservatory;
    assert a[10] == o.metrics && a[11] == o.geodata && a[12] == o.env;
    assert b[0] == n.log && b[1] == n.dns && b[2] == n.transport && b[3] == n.policy && b[4] == n.api
      && b[5] == n.stats;
    assert b[6] == n.reverse && b[7] == n.fakedns && b[8] == n.observatory && b[9] == n.burstObservatory;
    assert b[10] == n.metrics && b[11] == n.geodata && b[12] == n.env;
    forall i | 0 <= i < 13 ensures RawEqual(lib, a[i], b[i]) <==> SectionOf(lib, a[i]) == SectionOf(lib, b[i]) {
      RawEqualIsSameSection(lib, a[i], b[i]);
    }
  }

  lemma PlanIsPlanned(lib: Library, o: Config, n: Config, ops: Ops)
    requires Addressable(lib, o) && Addressable(lib, n) && IsHotDiff(lib, o, n, ops)
    ensures Planned(lib, InboundsOf(lib, o, n), ops)
  {
    ByTagLists(o.inbounds);
    ByTagLists(n.inbounds);
  }

  /** The removals of users and inbounds. */
  lemma RemovalHalf(lib: Library, rt: Runtime, ctx: Inbounds, ops: Ops)
    requires Planned(lib, ctx, ops)
    requires rt.inbounds == AllCores(lib, ctx.old_) && rt.users == AllUsers(lib, ctx.old_)
    ensures RemoveUsers(rt, ops.removedUsers).Some?
    ensures RemoveInbounds(RemoveUsers(rt, ops.removedUsers).value, ops.removedInbounds)
         == Some(rt.(inbounds := AllCores(lib, ctx.old_) - Elems(ops.removedInbounds),
                     users := UsersLeft(lib, ctx, ops)))
  {
    OpsHaveDistinctKeys(lib, ctx, ops);
    RemovalsEnabled(lib, ctx, ops);
    RemoveUsersAll(rt, ops.removedUsers);
    RemoveInboundsAll(rt.(users := rt.users - Keys(ops.removedUsers)), ops.removedInbounds);
  }

  /** The additions of inbounds and users. */
  lemma AdditionHalf(lib: Library, rt: Runtime, ctx: Inbounds, ops: Ops)
    requires Planned(lib, ctx, ops)
    requires rt.inbounds == AllCores(lib, ctx.old_) - Elems(ops.removedInbounds) && rt.users == UsersLeft(lib, ctx, ops)
    ensures AddInbounds(lib, rt, ops.addedInbounds).Some?
    ensures AddUsers(AddInbounds(lib, rt, ops.addedInbounds).value, ops.addedUsers)
         == Some(rt.(inbounds := AllCores(lib, ctx.new_), users := AllUsers(lib, ctx.new_)))
  {
    OpsHaveDistinctKeys(lib, ctx, ops);
    forall ib | ib in ops.addedInbounds ensures ib.tag !in rt.inbounds && ib.tag in ctx.new_ && ctx.new_[ib.tag] == ib {
      assert PutsInbound(lib, ctx, ib);
    }
    AddInboundsAll(lib, rt, ops.addedInbounds, ctx.new_);
    var mid := AddInbounds(lib, rt, ops.addedInbounds).value;
    InboundsReached(lib, ctx, ops, mid.inbounds);
    AdditionsEnabled(lib, ctx, ops, mid.users);
    AddUsersAll(mid, ops.addedUsers, AllUsers(lib, ctx.new_));
    UsersReached(lib, ctx, ops, mid.users, AddUsers(mid, ops.addedUsers).value.users);
  }

  lemma RunsInSteps(lib: Library, rt: Runtime, ops: Ops, s1: Runtime, s2: Runtime, s3: Runtime, s4: Runtime,
                    s5: Runtime, s6: Runtime)
    requires RemoveUsers(rt, ops.removedUsers) == Some(s1)
    requires RemoveInbounds(s1, ops.removedInbounds) == Some(s2)
    requires RemoveOutbounds(s2, ops.removedOutbounds) == Some(s3)
    requires AddOutbounds(lib, s3, ops.addedOutbounds) == Some(s4)
    requires AddInbounds(lib, s4, ops.addedInbounds) == Some(s5)
    requires AddUsers(s5, ops.addedUsers) == Some(s6)
    ensures Execute(lib, rt, ops) == ApplyRouting(lib, s6, ops.routing)
  {
  }

  /** Removals, then additions, on any state with the old handlers, users and outbounds. */
  lemma HandlersReached(lib: Library, rt: Runtime, ctx: Inbounds, o: seq<Outbound>, n: seq<Outbound>, ops: Ops)
    requires Planned(lib, ctx, ops)
    requires WellTagged(lib, o) && WellTagged(lib, n) && SameDefault(o, n)
    requires ListsOutbounds(OutboundMap(o), OutboundMap(n), lib, ops)
    requires rt.inbounds == AllCores(lib, ctx.old_) && rt.users == AllUsers(lib, ctx.old_)
    requires rt.outbounds == Norms(OutboundMap(o)) && rt.default_ == FirstTag(o)
    ensures Execute(lib, rt, ops)
         == ApplyRouting(lib, rt.(inbounds := AllCores(lib, ctx.new_), users := AllUsers(lib, ctx.new_),
                                  outbounds := Norms(OutboundMap(n)), default_ := FirstTag(n)), ops.routing)
  {
    RemovalHalf(lib, rt, ctx, ops);
    var s1 := RemoveUsers(rt, ops.removedUsers).value;
    var s2 := RemoveInbounds(s1, ops.removedInbounds).value;
    OutboundHalf(lib, s2, o, n, ops);
    var s3 := RemoveOutbounds(s2, ops.removedOutbounds).value;
    var s4 := AddOutbounds(lib, s3, ops.addedOutbounds).value;
    AdditionHalf(lib, s4, ctx, ops);
    var s5 := AddInbounds(lib, s4, ops.addedInbounds).value;
    var s6 := AddUsers(s5, ops.addedUsers).value;
    RunsInSteps(lib, rt, ops, s1, s2, s3, s4, s5, s6);
  }

  lemma StateParts(lib: Library, c: Config)
    requires Addressable(lib, c)
    ensures var m, es, rt := ByTag(c.inbounds).value, Outbounds(lib, c.outbounds).value, StateOf(lib, c);
      && rt.inbounds == AllCores(lib, m) && rt.users == AllUsers(lib, m)
      && rt.outbounds == Norms(OutboundMap(es)) && rt.default_ == FirstTag(es)
      && rt.routing == RoutingOf(lib, c.routing) && rt.fixed == FixedSections(lib, c)
  {
  }

  /** Every operation of a successful plan is enabled when it runs, and the run ends in the new state. */
  lemma HotApplyCorrect(lib: Library, o: Config, n: Config, ops: Ops)
    requires Applicable(lib, o, n) && IsHotDiff(lib, o, n, ops)
    ensures Execute(lib, StateOf(lib, o), ops) == Some(StateOf(lib, n))
  {
    var rt, ctx := StateOf(lib, o), InboundsOf(lib, o, n);
    var oe, ne := Outbounds(lib, o.outbounds).value, Outbounds(lib, n.outbounds).value;
    StateParts(lib, o);
    StateParts(lib, n);
    OutboundsWellTagged(lib, o.outbounds);
    OutboundsWellTagged(lib, n.outbounds);
    PlanIsPlanned(lib, o, n, ops);
    HandlersReached(lib, rt, ctx, oe, ne, ops);
    var handlers := rt.(inbounds := AllCores(lib, ctx.new_), users := AllUsers(lib, ctx.new_),
                        outbounds := Norms(OutboundMap(ne)), default_ := FirstTag(ne));
    RoutingReached(lib, handlers, o.routing, n.routing);
    StaticsAreFixed(lib, o, n);
  }

  /** An empty plan means the two configurations describe one runtime state. */
  lemma EmptyDiffMeansSameState(lib: Library, o: Config, n: Config)
    requires Applicable(lib, o, n) && IsHotDiff(lib, o, n, NOTHING)
    ensures StateOf(lib, o) == StateOf(lib, n)
  {
    HotApplyCorrect(lib, o, n, NOTHING);
  }

  /** A configuration against itself: applicable exactly when addressable, and then nothing to do. */
  lemma SelfDiffIsEmpty(lib: Library, c: Config)
    ensures Applicable(lib, c, c) <==> Addressable(lib, c)
    ensures Addressable(lib, c) ==> IsHotDiff(lib, c, c, NOTHING)
    ensures forall ops | Addressable(lib, c) && IsHotDiff(lib, c, c, ops) :: ops == NOTHING
  {
    if Addressable(lib, c) {
      var ctx := InboundsOf(lib, c, c);
      assert forall t :: !Changed(lib, ctx, t) && !Gone(ctx, t) && !Fresh(ctx, t);
      var m := OutboundMap(Outbounds(lib, c.outbounds).value);
      assert forall t :: !OutboundDiffers(m, m, t);
      assert ListsOutbounds(m, m, lib, NOTHING);
      forall ops | IsHotDiff(lib, c, c, ops) ensures ops == NOTHING {
        EmptyPlanIsUnique(lib, c, c, ops);
      }
    }
  }

  lemma NoInboundWork(lib: Library, ctx: Inbounds, ops: Ops, tags: set<string>)
    requires ListsInbounds(lib, ctx, ops, tags) && ListsInbounds(lib, ctx, NOTHING, tags)
    ensures ops.removedInbounds == [] && ops.addedInbounds == [] && ops.removedUsers == [] && ops.addedUsers == []
  {
    assert forall t :: t in ops.removedInbounds <==> t in NOTHING.removedInbounds;
    assert forall ib :: ib in ops.addedInbounds <==> ib in NOTHING.addedInbounds;
    assert forall op :: op in ops.removedUsers <==> op in NOTHING.removedUsers;
    assert forall op :: op in ops.addedUsers <==> op in NOTHING.addedUsers;
    NoMembers(ops.removedInbounds);
    NoMembers(ops.addedInbounds);
    NoMembers(ops.removedUsers);
    NoMembers(ops.addedUsers);
  }

  lemma NoOutboundWork(lib: Library, o: map<string, Outbound>, n: map<string, Outbound>, ops: Ops)
    requires ListsOutbounds(o, n, lib, ops) && ListsOutbounds(o, n, lib, NOTHING)
    ensures ops.removedOutbounds == [] && ops.addedOutbounds == []
  {
    NoMembers(ops.removedOutbounds);
    forall t ensures !OutboundDiffers(n, o, t) {
      assert OutboundDiffers(n, o, t) ==> n[t].raw in NOTHING.addedOutbounds;
    }
    NoMembers(ops.addedOutbounds);
  }

  lemma EmptyPlanIsUnique(lib: Library, o: Config, n: Config, ops: Ops)
    requires Addressable(lib, o) && Addressable(lib, n)
    requires IsHotDiff(lib, o, n, ops) && IsHotDiff(lib, o, n, NOTHING)
    ensures ops == NOTHING
  {
    NoInboundWork(lib, InboundsOf(lib, o, n), ops, Tags(o.inbounds) + Tags(n.inbounds));
    NoOutboundWork(lib, OutboundMap(Outbounds(lib, o.outbounds).value), OutboundMap(Outbounds(lib, n.outbounds).value),
                   ops);
  }

  /** No operation of a successful plan names the inbound the panel talks through. */
  lemma ApiInboundUntouched(lib: Library, o: Config, n: Config, ops: Ops)
    requires Applicable(lib, o, n) && IsHotDiff(lib, o, n, ops)
    ensures var api := ApiTag(lib, n.api);
      forall t | t == api || t == "api" ::
        && t !in ops.removedInbounds && (forall ib | ib in ops.addedInbounds :: ib.tag != t)
        && (forall op | op in ops.removedUsers + ops.addedUsers :: op.tag != t)
  {
    var ctx := InboundsOf(lib, o, n);
    PlanIsPlanned(lib, o, n, ops);
    ByTagLists(o.inbounds);
    ByTagLists(n.inbounds);
    forall t | IsApi(ctx, t)
      ensures t !in ops.removedInbounds && (forall ib | ib in ops.addedInbounds :: ib.tag != t)
      ensures forall op | op in ops.removedUsers + ops.addedUsers :: op.tag != t
    {
      ApiTagIdle(lib, ctx, t);
    }
  }

  lemma ApiTagIdle(lib: Library, ctx: Inbounds, t: string)
    requires AllApplicable(lib, ctx, ctx.old_.Keys + ctx.new_.Keys) && IsApi(ctx, t)
    ensures !Changed(lib, ctx, t) && !Gone(ctx, t) && !Fresh(ctx, t)
  {
    if t in ctx.old_.Keys + ctx.new_.Keys {
      assert TagApplicable(lib, ctx, t);
    }
  }
}
