/**
  The hot-apply planner (internal/xray/hot_diff.go): from two configurations, either the
  removals and additions that turn one into the other at runtime, or "restart".

  IsHotDiff says, operation by operation, what a successful plan contains; ComputeHotDiff is
  the code's loops, proved to succeed exactly when the change is Applicable and to list
  exactly those operations, each once.  HotApply proves what executing them does.
*/
module HotDiff {
  import opened Wrappers
  import opened Sequences
  import opened HotConfig

  datatype UserOp = UserOp(tag: string, protocol: string, email: string, user: Option<Json>)

  datatype Ops = Ops(
    removedInbounds: seq<string>, addedInbounds: seq<Inbound>,
    removedUsers: seq<UserOp>, addedUsers: seq<UserOp>,
    removedOutbounds: seq<string>, addedOutbounds: seq<Raw>,
    routing: Option<Raw>)

  const NOTHING := Ops([], [], [], [], [], [], None)

  // ---------------------------------------------------------------- inbounds: what must happen to a tag

  datatype Inbounds = Inbounds(old_: map<string, Inbound>, new_: map<string, Inbound>, apiTag: string)

  const USER_DIFFABLE := {"vless", "vmess", "trojan"}

  predicate IsApi(ctx: Inbounds, tag: string) {
    tag == ctx.apiTag || tag == "api"
  }

  /** Two same-tag inbounds that differ in settings.clients at most. */
  predicate UsersOnly(lib: Library, o: Inbound, n: Inbound) {
    && o.port == n.port && o.protocol == n.protocol && o.tag == n.tag
    && o.protocol in USER_DIFFABLE
    && RawEqual(lib, o.listen, n.listen) && RawEqual(lib, o.stream, n.stream) && RawEqual(lib, o.sniffing, n.sniffing)
    && SplitSettings(lib, o.settings).Some? && SplitSettings(lib, n.settings).Some?
    && SplitSettings(lib, o.settings).value.rest == SplitSettings(lib, n.settings).value.rest
  }

  function ClientsOf(lib: Library, ib: Inbound): map<string, Json> {
    if SplitSettings(lib, ib.settings).Some? then SplitSettings(lib, ib.settings).value.clients else map[]
  }

  /** The client is in `a` and is not, or not like that, in `b`. */
  predicate Differs(a: map<string, Json>, b: map<string, Json>, email: string) {
    email in a && !(email in b && b[email] == a[email])
  }

  predicate RemovesUser(lib: Library, o: Inbound, n: Inbound, op: UserOp) {
    Differs(ClientsOf(lib, o), ClientsOf(lib, n), op.email) && op == UserOp(o.tag, o.protocol, op.email, None)
  }

  predicate AddsUser(lib: Library, o: Inbound, n: Inbound, op: UserOp) {
    && Differs(ClientsOf(lib, n), ClientsOf(lib, o), op.email)
    && op == UserOp(o.tag, o.protocol, op.email, Some(ClientsOf(lib, n)[op.email]))
  }

  predicate Changed(lib: Library, ctx: Inbounds, t: string) {
    t in ctx.old_ && t in ctx.new_ && !InboundEqual(lib, ctx.old_[t], ctx.new_[t])
  }

  predicate ByUsers(lib: Library, ctx: Inbounds, t: string) {
    Changed(lib, ctx, t) && UsersOnly(lib, ctx.old_[t], ctx.new_[t])
  }

  predicate Replaced(lib: Library, ctx: Inbounds, t: string) {
    Changed(lib, ctx, t) && !UsersOnly(lib, ctx.old_[t], ctx.new_[t])
  }

  predicate Gone(ctx: Inbounds, t: string) {
    t in ctx.old_ && t !in ctx.new_
  }

  predicate Fresh(ctx: Inbounds, t: string) {
    t in ctx.new_ && t !in ctx.old_
  }

  /** Nothing about tag `t` needs a restart. */
  predicate TagApplicable(lib: Library, ctx: Inbounds, t: string) {
    && (Changed(lib, ctx, t) || Gone(ctx, t) || Fresh(ctx, t) ==> !IsApi(ctx, t))
    && (Changed(lib, ctx, t) ==>
          !lib.hasReverseClient(ctx.old_[t].settings) && !lib.hasReverseClient(ctx.new_[t].settings))
    && (Replaced(lib, ctx, t) || Fresh(ctx, t) ==> Marshals(lib, ctx.new_[t]))
  }

  // ---------------------------------------------------------------- inbounds: what the plan lists

  predicate DropsInbound(lib: Library, ctx: Inbounds, t: string) {
    Replaced(lib, ctx, t) || Gone(ctx, t)
  }

  predicate PutsInbound(lib: Library, ctx: Inbounds, ib: Inbound) {
    ib.tag in ctx.new_ && ctx.new_[ib.tag] == ib && (Replaced(lib, ctx, ib.tag) || Fresh(ctx, ib.tag))
  }

  predicate DropsUser(lib: Library, ctx: Inbounds, op: UserOp) {
    ByUsers(lib, ctx, op.tag) && RemovesUser(lib, ctx.old_[op.tag], ctx.new_[op.tag], op)
  }

  predicate PutsUser(lib: Library, ctx: Inbounds, op: UserOp) {
    ByUsers(lib, ctx, op.tag) && AddsUser(lib, ctx.old_[op.tag], ctx.new_[op.tag], op)
  }

  /** The inbound operations for the tags in `done`, each exactly once. */
  ghost predicate ListsInbounds(lib: Library, ctx: Inbounds, ops: Ops, done: set<string>) {
    && (forall t :: t in ops.removedInbounds <==> t in done && DropsInbound(lib, ctx, t))
    && (forall ib :: ib in ops.addedInbounds <==> ib.tag in done && PutsInbound(lib, ctx, ib))
    && (forall op :: op in ops.removedUsers <==> op.tag in done && DropsUser(lib, ctx, op))
    && (forall op :: op in ops.addedUsers <==> op.tag in done && PutsUser(lib, ctx, op))
    && Distinct(ops.removedInbounds) && Distinct(ops.addedInbounds)
    && Distinct(ops.removedUsers) && Distinct(ops.addedUsers)
  }

  ghost predicate AllApplicable(lib: Library, ctx: Inbounds, done: set<string>) {
    forall t | t in done :: TagApplicable(lib, ctx, t)
  }

  // ---------------------------------------------------------------- outbounds and routing

  predicate OutboundDiffers(a: map<string, Outbound>, b: map<string, Outbound>, t: string) {
    t in a && !(t in b && b[t].norm == a[t].norm)
  }

  ghost predicate ListsOutbounds(o: map<string, Outbound>, n: map<string, Outbound>, lib: Library, ops: Ops) {
    && (forall t :: t in ops.removedOutbounds <==> OutboundDiffers(o, n, t))
    && (forall raw :: raw in ops.addedOutbounds <==> exists t :: OutboundDiffers(n, o, t) && n[t].raw == raw)
    && Distinct(ops.removedOutbounds) && Distinct(ops.addedOutbounds)
  }

  predicate SameDefault(o: seq<Outbound>, n: seq<Outbound>) {
    (o == [] <==> n == []) && (o != [] ==> o[0].tag == n[0].tag && o[0].norm == n[0].norm)
  }

  ghost predicate OutboundsApplicable(lib: Library, o: seq<Outbound>, n: seq<Outbound>) {
    && SameDefault(o, n)
    && forall e <- n :: OutboundDiffers(OutboundMap(n), OutboundMap(o), e.tag) ==> !lib.needsCustomCore(e.raw)
  }

  predicate RoutingApplicable(lib: Library, o: Raw, n: Raw) {
    o == n ||
    (o != "" && n != "" && RoutingRestOf(lib, o).Some? && RoutingRestOf(lib, o) == RoutingRestOf(lib, n))
  }

  // ---------------------------------------------------------------- the whole plan

  function InboundsOf(lib: Library, o: Config, n: Config): Inbounds
    requires ByTag(o.inbounds).Some? && ByTag(n.inbounds).Some?
  {
    Inbounds(ByTag(o.inbounds).value, ByTag(n.inbounds).value, ApiTag(lib, n.api))
  }

  predicate Addressable(lib: Library, c: Config) {
    ByTag(c.inbounds).Some? && Outbounds(lib, c.outbounds).Some?
  }

  predicate SameStatics(lib: Library, o: Config, n: Config) {
    forall i | 0 <= i < 13 :: RawEqual(lib, Statics(o)[i], Statics(n)[i])
  }

  /** The change can be applied without a restart. */
  ghost predicate Applicable(lib: Library, o: Config, n: Config) {
    && SameStatics(lib, o, n)
    && Addressable(lib, o) && Addressable(lib, n)
    && AllApplicable(lib, InboundsOf(lib, o, n), Tags(o.inbounds) + Tags(n.inbounds))
    && OutboundsApplicable(lib, Outbounds(lib, o.outbounds).value, Outbounds(lib, n.outbounds).value)
    && RoutingApplicable(lib, o.routing, n.routing)
  }

  /** `ops` are the operations of the change, in some order within each list. */
  ghost predicate IsHotDiff(lib: Library, o: Config, n: Config, ops: Ops)
    requires Addressable(lib, o) && Addressable(lib, n)
  {
    && ListsInbounds(lib, InboundsOf(lib, o, n), ops, Tags(o.inbounds) + Tags(n.inbounds))
    && ListsOutbounds(OutboundMap(Outbounds(lib, o.outbounds).value), OutboundMap(Outbounds(lib, n.outbounds).value),
                      lib, ops)
    && ops.routing == if o.routing == n.routing then None else Some(n.routing)
  }

  // ---------------------------------------------------------------- the accumulator

  class HotDiff {
    var removedInboundTags: seq<string>
    var addedInbounds: seq<Inbound>
    var removedUsers: seq<UserOp>
    var addedUsers: seq<UserOp>
    var removedOutboundTags: seq<string>
    var addedOutbounds: seq<Raw>
    var routingConfig: Option<Raw>

    constructor ()
      ensures View() == NOTHING
    {
      removedInboundTags, addedInbounds, removedUsers, addedUsers := [], [], [], [];
      removedOutboundTags, addedOutbounds, routingConfig := [], [], None;
    }

    function View(): Ops
      reads this
    {
      Ops(removedInboundTags, addedInbounds, removedUsers, addedUsers, removedOutboundTags, addedOutbounds,
          routingConfig)
    }

    method Empty() returns (empty: bool)
      ensures empty <==> View() == NOTHING
    {
      empty := |removedInboundTags| == 0 && |addedInbounds| == 0 && |removedUsers| == 0 && |addedUsers| == 0
        && |removedOutboundTags| == 0 && |addedOutbounds| == 0 && routingConfig.None?;
    }
  }

  // ---------------------------------------------------------------- inbounds: the loops

  /** diffInboundUsers: on refusal the diff is untouched. */
  method DiffInboundUsers(lib: Library, o: Inbound, n: Inbound, diff: HotDiff) returns (ok: bool)
    modifies diff
    ensures ok <==> UsersOnly(lib, o, n)
    ensures !ok ==> diff.View() == old(diff.View())
    ensures ok ==> exists removed, added ::
      && diff.View()
        == old(diff.View()).(removedUsers := old(diff.removedUsers) + removed,
                             addedUsers := old(diff.addedUsers) + added)
      && Distinct(removed) && (forall op :: op in removed <==> RemovesUser(lib, o, n, op))
      && Distinct(added) && (forall op :: op in added <==> AddsUser(lib, o, n, op))
  {
    if o.port != n.port || o.protocol != n.protocol || o.tag != n.tag {
      return false;
    }
    if o.protocol !in USER_DIFFABLE {
      return false;
    }
    if !RawEqual(lib, o.listen, n.listen) || !RawEqual(lib, o.stream, n.stream)
      || !RawEqual(lib, o.sniffing, n.sniffing) {
      return false;
    }
    var oldSplit := SplitSettingsClients(lib, o.settings);
    if oldSplit.None? {
      return false;
    }
    var newSplit := SplitSettingsClients(lib, n.settings);
    if newSplit.None? {
      return false;
    }
    if oldSplit.value.rest != newSplit.value.rest {
      return false;
    }
    var removed, replaced := OldClientOps(o.tag, o.protocol, oldSplit.value.clients, newSplit.value.clients);
    var fresh_ := NewClientOps(o.tag, o.protocol, oldSplit.value.clients, newSplit.value.clients);
    DistinctConcat(replaced, fresh_);
    diff.removedUsers := diff.removedUsers + removed;
    diff.addedUsers := diff.addedUsers + replaced + fresh_;
    assert diff.addedUsers == old(diff.addedUsers) + (replaced + fresh_);
    assert forall op :: op in replaced + fresh_ <==> AddsUser(lib, o, n, op);
    assert forall op :: op in removed <==> RemovesUser(lib, o, n, op);
    ok := true;
  }

  /** The loop over the old clients, in whatever order the map yields them. */
  method OldClientOps(tag: string, protocol: string, oldClients: map<string, Json>, newClients: map<string, Json>)
    returns (removed: seq<UserOp>, added: seq<UserOp>)
    ensures Distinct(removed) && Distinct(added)
    ensures forall op :: op in removed <==>
      Differs(oldClients, newClients, op.email) && op == UserOp(tag, protocol, op.email, None)
    ensures forall op :: op in added <==>
      && Differs(oldClients, newClients, op.email) && op.email in newClients
      && op == UserOp(tag, protocol, op.email, Some(newClients[op.email]))
  {
    removed, added := [], [];
    var todo := oldClients.Keys;
    while todo != {}
      invariant todo <= oldClients.Keys
      invariant Distinct(removed) && Distinct(added)
      invariant forall op :: op in removed <==>
        op.email !in todo && Differs(oldClients, newClients, op.email) && op == UserOp(tag, protocol, op.email, None)
      invariant forall op :: op in added <==>
        && op.email !in todo && Differs(oldClients, newClients, op.email) && op.email in newClients
        && op == UserOp(tag, protocol, op.email, Some(newClients[op.email]))
      decreases |todo|
    {
      var email :| email in todo;
      todo := todo - {email};
      if !(email in newClients && newClients[email] == oldClients[email]) {
        DistinctAppend(removed, UserOp(tag, protocol, email, None));
        removed := removed + [UserOp(tag, protocol, email, None)];
        if email in newClients {
          DistinctAppend(added, UserOp(tag, protocol, email, Some(newClients[email])));
          added := added + [UserOp(tag, protocol, email, Some(newClients[email]))];
        }
      }
    }
  }

  /** The loop over the new clients. */
  method NewClientOps(tag: string, protocol: string, oldClients: map<string, Json>, newClients: map<string, Json>)
    returns (added: seq<UserOp>)
    ensures Distinct(added)
    ensures forall op :: op in added <==>
      && op.email in newClients && op.email !in oldClients
      && op == UserOp(tag, protocol, op.email, Some(newClients[op.email]))
  {
    added := [];
    var todo := newClients.Keys;
    while todo != {}
      invariant todo <= newClients.Keys
      invariant Distinct(added)
      invariant forall op :: op in added <==>
        && op.email in newClients && op.email !in todo && op.email !in oldClients
        && op == UserOp(tag, protocol, op.email, Some(newClients[op.email]))
      decreases |todo|
    {
      var email :| email in todo;
      todo := todo - {email};
      if email !in oldClients {
        DistinctAppend(added, UserOp(tag, protocol, email, Some(newClients[email])));
        added := added + [UserOp(tag, protocol, email, Some(newClients[email]))];
      }
    }
  }

  lemma KeepStep(lib: Library, ctx: Inbounds, ops: Ops, done: set<string>, t: string)
    requires ListsInbounds(lib, ctx, ops, done)
    requires t in done || !(Changed(lib, ctx, t) || Gone(ctx, t) || Fresh(ctx, t))
    ensures ListsInbounds(lib, ctx, ops, done + {t})
  {
  }

  lemma UsersStep(lib: Library, ctx: Inbounds, ops: Ops, done: set<string>, t: string, removed: seq<UserOp>,
                  added: seq<UserOp>)
    requires ListsInbounds(lib, ctx, ops, done) && t !in done && ByUsers(lib, ctx, t)
    requires ctx.old_[t].tag == t
    requires Distinct(removed) && forall op :: op in removed <==> RemovesUser(lib, ctx.old_[t], ctx.new_[t], op)
    requires Distinct(added) && forall op :: op in added <==> AddsUser(lib, ctx.old_[t], ctx.new_[t], op)
    ensures ListsInbounds(lib, ctx,
                          ops.(removedUsers := ops.removedUsers + removed, addedUsers := ops.addedUsers + added),
                          done + {t})
  {
    DistinctConcat(ops.removedUsers, removed);
    DistinctConcat(ops.addedUsers, added);
  }

  lemma ReplaceStep(lib: Library, ctx: Inbounds, ops: Ops, done: set<string>, t: string)
    requires ListsInbounds(lib, ctx, ops, done) && t !in done && Replaced(lib, ctx, t)
    requires ctx.new_[t].tag == t
    ensures ListsInbounds(lib, ctx,
                          ops.(removedInbounds := ops.removedInbounds + [t],
                               addedInbounds := ops.addedInbounds + [ctx.new_[t]]), done + {t})
  {
    DistinctAppend(ops.removedInbounds, t);
    DistinctAppend(ops.addedInbounds, ctx.new_[t]);
  }

  lemma GoneStep(lib: Library, ctx: Inbounds, ops: Ops, done: set<string>, t: string)
    requires ListsInbounds(lib, ctx, ops, done) && t !in done && Gone(ctx, t)
    ensures ListsInbounds(lib, ctx, ops.(removedInbounds := ops.removedInbounds + [t]), done + {t})
  {
    DistinctAppend(ops.removedInbounds, t);
  }

  lemma FreshStep(lib: Library, ctx: Inbounds, ops: Ops, done: set<string>, t: string)
    requires ListsInbounds(lib, ctx, ops, done) && t !in done && Fresh(ctx, t)
    requires ctx.new_[t].tag == t
    ensures ListsInbounds(lib, ctx, ops.(addedInbounds := ops.addedInbounds + [ctx.new_[t]]), done + {t})
  {
    DistinctAppend(ops.addedInbounds, ctx.new_[t]);
  }

  lemma TagsGrow(inbounds: seq<Inbound>, i: nat)
    requires i < |inbounds|
    ensures Tags(inbounds[..i + 1]) == Tags(inbounds[..i]) + {inbounds[i].tag}
  {
    assert inbounds[..i + 1] == inbounds[..i] + [inbounds[i]];
  }

  lemma TagIsNew(inbounds: seq<Inbound>, i: nat)
    requires i < |inbounds| && ByTag(inbounds).Some?
    ensures inbounds[i].tag in ByTag(inbounds).value && ByTag(inbounds).value[inbounds[i].tag] == inbounds[i]
    ensures inbounds[i].tag !in Tags(inbounds[..i])
    ensures inbounds[i].tag in Tags(inbounds)
  {
    ByTagLists(inbounds);
    assert inbounds[i] in inbounds;
  }

  /** One turn of the loop over the old inbounds. */
  method DiffOldInbound(lib: Library, ghost ctx: Inbounds, oldIb: Inbound, newByTag: map<string, Inbound>,
                        apiTag: string, diff: HotDiff, ghost done: set<string>)
    returns (ok: bool)
    requires oldIb.tag in ctx.old_ && ctx.old_[oldIb.tag] == oldIb && ctx.new_ == newByTag && ctx.apiTag == apiTag
    requires forall t | t in newByTag :: newByTag[t].tag == t
    requires oldIb.tag !in done && ListsInbounds(lib, ctx, diff.View(), done)
    modifies diff
    ensures ok <==> TagApplicable(lib, ctx, oldIb.tag)
    ensures ok ==> ListsInbounds(lib, ctx, diff.View(), done + {oldIb.tag})
    ensures UntouchedElsewhere(old(diff.View()), diff.View())
  {
    var t := oldIb.tag;
    var exists_ := t in newByTag;
    if exists_ && InboundEqual(lib, oldIb, newByTag[t]) {
      KeepStep(lib, ctx, diff.View(), done, t);
      return true;
    }
    if t == apiTag || t == "api" {
      return false;
    }
    if exists_ && (lib.hasReverseClient(oldIb.settings) || lib.hasReverseClient(newByTag[t].settings)) {
      return false;
    }
    if exists_ {
      ghost var before := diff.View();
      var handled := DiffInboundUsers(lib, oldIb, newByTag[t], diff);
      if handled {
        ghost var removed, added :|
          && diff.View()
            == before.(removedUsers := before.removedUsers + removed, addedUsers := before.addedUsers + added)
          && Distinct(removed) && (forall op :: op in removed <==> RemovesUser(lib, oldIb, newByTag[t], op))
          && Distinct(added) && (forall op :: op in added <==> AddsUser(lib, oldIb, newByTag[t], op));
        UsersStep(lib, ctx, before, done, t, removed, added);
        return true;
      }
    }
    if exists_ {
      ReplaceStep(lib, ctx, diff.View(), done, t);
    } else {
      GoneStep(lib, ctx, diff.View(), done, t);
    }
    diff.removedInboundTags := diff.removedInboundTags + [t];
    if exists_ {
      if !Marshals(lib, newByTag[t]) {
        return false;
      }
      diff.addedInbounds := diff.addedInbounds + [newByTag[t]];
    }
    return true;
  }

  /** The outbound and routing parts of two plans coincide. */
  predicate UntouchedElsewhere(a: Ops, b: Ops) {
    a.removedOutbounds == b.removedOutbounds && a.addedOutbounds == b.addedOutbounds && a.routing == b.routing
  }

  /** diffInbounds. */
  method DiffInbounds(lib: Library, o: Config, n: Config, diff: HotDiff) returns (ok: bool)
    requires diff.View() == NOTHING
    modifies diff
    ensures ok <==>
      && ByTag(o.inbounds).Some? && ByTag(n.inbounds).Some?
      && AllApplicable(lib, InboundsOf(lib, o, n), Tags(o.inbounds) + Tags(n.inbounds))
    ensures ok ==> ListsInbounds(lib, InboundsOf(lib, o, n), diff.View(), Tags(o.inbounds) + Tags(n.inbounds))
    ensures UntouchedElsewhere(NOTHING, diff.View())
  {
    var oldByTag := InboundsByTag(o.inbounds);
    if oldByTag.None? {
      return false;
    }
    var newByTag := InboundsByTag(n.inbounds);
    if newByTag.None? {
      return false;
    }
    var apiTag := ApiTag(lib, n.api);
    ghost var ctx := InboundsOf(lib, o, n);
    for i := 0 to |o.inbounds|
      invariant ListsInbounds(lib, ctx, diff.View(), Tags(o.inbounds[..i]))
      invariant AllApplicable(lib, ctx, Tags(o.inbounds[..i]))
      invariant UntouchedElsewhere(NOTHING, diff.View())
    {
      TagIsNew(o.inbounds, i);
      TagsGrow(o.inbounds, i);
      var applied := DiffOldInbound(lib, ctx, o.inbounds[i], newByTag.value, apiTag, diff, Tags(o.inbounds[..i]));
      if !applied {
        return false;
      }
    }
    assert o.inbounds[..|o.inbounds|] == o.inbounds;
    ByTagLists(o.inbounds);
    ok := DiffNewInbounds(lib, ctx, o.inbounds, n.inbounds, oldByTag.value, newByTag.value, apiTag, diff);
  }

  /** The loop over the new inbounds. */
  method DiffNewInbounds(lib: Library, ghost ctx: Inbounds, ghost oldIbs: seq<Inbound>, newIbs: seq<Inbound>,
                         oldByTag: map<string, Inbound>, ghost newByTag: map<string, Inbound>, apiTag: string,
                         diff: HotDiff)
    returns (ok: bool)
    requires ctx == Inbounds(oldByTag, newByTag, apiTag)
    requires ByTag(newIbs) == Some(newByTag) && oldByTag.Keys == Tags(oldIbs)
    requires ListsInbounds(lib, ctx, diff.View(), Tags(oldIbs)) && AllApplicable(lib, ctx, Tags(oldIbs))
    modifies diff
    ensures ok <==> AllApplicable(lib, ctx, Tags(oldIbs) + Tags(newIbs))
    ensures ok ==> ListsInbounds(lib, ctx, diff.View(), Tags(oldIbs) + Tags(newIbs))
    ensures UntouchedElsewhere(old(diff.View()), diff.View())
  {
    ghost var base := Tags(oldIbs);
    assert base + Tags(newIbs[..0]) == base;
    for i := 0 to |newIbs|
      invariant ListsInbounds(lib, ctx, diff.View(), base + Tags(newIbs[..i]))
      invariant AllApplicable(lib, ctx, base + Tags(newIbs[..i]))
      invariant UntouchedElsewhere(old(diff.View()), diff.View())
    {
      var newIb := newIbs[i];
      TagIsNew(newIbs, i);
      TagsGrow(newIbs, i);
      ghost var done := base + Tags(newIbs[..i]);
      assert base + Tags(newIbs[..i + 1]) == done + {newIb.tag};
      if newIb.tag in oldByTag {
        KeepStep(lib, ctx, diff.View(), done, newIb.tag);
        continue;
      }
      if newIb.tag == apiTag || newIb.tag == "api" {
        return false;
      }
      if !Marshals(lib, newIb) {
        return false;
      }
      FreshStep(lib, ctx, diff.View(), done, newIb.tag);
      diff.addedInbounds := diff.addedInbounds + [newIb];
    }
    assert newIbs[..|newIbs|] == newIbs;
    return true;
  }

  // ---------------------------------------------------------------- outbounds: the loops

  lemma OutboundTagsGrow(es: seq<Outbound>, i: nat)
    requires i < |es|
    ensures OutboundTags(es[..i + 1]) == OutboundTags(es[..i]) + {es[i].tag}
  {
    assert es[..i + 1] == es[..i] + [es[i]];
  }

  lemma OutboundTagIsNew(lib: Library, es: seq<Outbound>, i: nat)
    requires WellTagged(lib, es) && i < |es|
    ensures es[i].tag !in OutboundTags(es[..i]) && es[i].tag in OutboundMap(es) && OutboundMap(es)[es[i].tag] == es[i]
    ensures lib.tagOf(es[i].raw) == Some(es[i].tag)
  {
    OutboundMapLists(lib, es);
    assert es[i] in es;
  }

  /** The raw additions for the tags in `done`, each exactly once. */
  ghost predicate ListsAdditions(lib: Library, n: map<string, Outbound>, wanted: set<string>, added: seq<Raw>) {
    && (forall raw :: raw in added <==> exists t :: t in wanted && t in n && n[t].raw == raw)
    && Distinct(added)
  }

  lemma AdditionStep(lib: Library, n: map<string, Outbound>, wanted: set<string>, added: seq<Raw>, t: string)
    requires ListsAdditions(lib, n, wanted, added) && t in n && t !in wanted
    requires forall u | u in n :: lib.tagOf(n[u].raw) == Some(u)
    ensures ListsAdditions(lib, n, wanted + {t}, added + [n[t].raw])
  {
    forall u | u in wanted && u in n ensures n[u].raw != n[t].raw {
      assert lib.tagOf(n[u].raw) == Some(u);
    }
    DistinctAppend(added, n[t].raw);
    forall raw ensures raw in added + [n[t].raw] <==> exists u :: u in wanted + {t} && u in n && n[u].raw == raw {
      if raw == n[t].raw {
        assert t in wanted + {t};
      } else if raw in added {
        var u :| u in wanted && u in n && n[u].raw == raw;
        assert u in wanted + {t};
      }
    }
  }

  function DifferingTags(a: map<string, Outbound>, b: map<string, Outbound>, among: set<string>): set<string> {
    set t | t in among && OutboundDiffers(a, b, t)
  }

  lemma DifferingGrow(a: map<string, Outbound>, b: map<string, Outbound>, among: set<string>, t: string)
    ensures DifferingTags(a, b, among + {t})
         == if OutboundDiffers(a, b, t) then DifferingTags(a, b, among) + {t} else DifferingTags(a, b, among)
  {
  }

  /** The loop over the old outbounds. */
  method DiffOldOutbounds(lib: Library, oldOut: seq<Outbound>, newByTag: map<string, Outbound>,
                          ghost oldByTag: map<string, Outbound>)
    returns (removed: seq<string>, added: seq<Raw>)
    requires WellTagged(lib, oldOut) && oldByTag == OutboundMap(oldOut)
    requires forall u | u in newByTag :: lib.tagOf(newByTag[u].raw) == Some(u)
    ensures Distinct(removed) && forall t :: t in removed <==> OutboundDiffers(oldByTag, newByTag, t)
    ensures ListsAdditions(lib, newByTag, DifferingTags(newByTag, oldByTag, OutboundTags(oldOut)), added)
  {
    removed, added := [], [];
    for i := 0 to |oldOut|
      invariant Distinct(removed)
      invariant forall t :: t in removed <==> t in OutboundTags(oldOut[..i]) && OutboundDiffers(oldByTag, newByTag, t)
      invariant ListsAdditions(lib, newByTag, DifferingTags(newByTag, oldByTag, OutboundTags(oldOut[..i])), added)
    {
      var oldE := oldOut[i];
      OutboundTagIsNew(lib, oldOut, i);
      OutboundTagsGrow(oldOut, i);
      ghost var done := OutboundTags(oldOut[..i]);
      DifferingGrow(newByTag, oldByTag, done, oldE.tag);
      if oldE.tag in newByTag && newByTag[oldE.tag].norm == oldE.norm {
        continue;
      }
      DistinctAppend(removed, oldE.tag);
      removed := removed + [oldE.tag];
      if oldE.tag in newByTag {
        AdditionStep(lib, newByTag, DifferingTags(newByTag, oldByTag, done), added, oldE.tag);
        added := added + [newByTag[oldE.tag].raw];
      }
    }
    assert oldOut[..|oldOut|] == oldOut;
  }

  lemma NewOutboundStep(lib: Library, newOut: seq<Outbound>, oldByTag: map<string, Outbound>,
                        newByTag: map<string, Outbound>, i: nat, added: seq<Raw>)
    requires WellTagged(lib, newOut) && newByTag == OutboundMap(newOut) && i < |newOut|
    requires forall u | u in newByTag :: lib.tagOf(newByTag[u].raw) == Some(u)
    requires ListsAdditions(lib, newByTag, DifferingTags(newByTag, oldByTag, oldByTag.Keys + OutboundTags(newOut[..i])),
                            added)
    ensures ListsAdditions(lib, newByTag,
                           DifferingTags(newByTag, oldByTag, oldByTag.Keys + OutboundTags(newOut[..i + 1])),
                           if newOut[i].tag in oldByTag then added else added + [newOut[i].raw])
  {
    OutboundTagIsNew(lib, newOut, i);
    OutboundTagsGrow(newOut, i);
    var done, t := oldByTag.Keys + OutboundTags(newOut[..i]), newOut[i].tag;
    assert oldByTag.Keys + OutboundTags(newOut[..i + 1]) == done + {t};
    if t in oldByTag {
      assert done + {t} == done;
    } else {
      DifferingGrow(newByTag, oldByTag, done, t);
      AdditionStep(lib, newByTag, DifferingTags(newByTag, oldByTag, done), added, t);
    }
  }

  /** The loop over the new outbounds. */
  method DiffNewOutbounds(lib: Library, newOut: seq<Outbound>, oldByTag: map<string, Outbound>,
                          ghost newByTag: map<string, Outbound>, before: seq<Raw>)
    returns (added: seq<Raw>)
    requires WellTagged(lib, newOut) && newByTag == OutboundMap(newOut)
    requires forall u | u in newByTag :: lib.tagOf(newByTag[u].raw) == Some(u)
    requires ListsAdditions(lib, newByTag, DifferingTags(newByTag, oldByTag, oldByTag.Keys), before)
    ensures ListsAdditions(lib, newByTag, DifferingTags(newByTag, oldByTag, oldByTag.Keys + OutboundTags(newOut)),
                           added)
  {
    added := before;
    assert oldByTag.Keys + OutboundTags(newOut[..0]) == oldByTag.Keys;
    for i := 0 to |newOut|
      invariant ListsAdditions(lib, newByTag,
                               DifferingTags(newByTag, oldByTag, oldByTag.Keys + OutboundTags(newOut[..i])), added)
    {
      NewOutboundStep(lib, newOut, oldByTag, newByTag, i, added);
      if newOut[i].tag !in oldByTag {
        added := added + [newOut[i].raw];
      }
    }
    assert newOut[..|newOut|] == newOut;
  }

  /** The check for outbounds only the deployed custom core can build. */
  method CheckCustomCore(lib: Library, newOut: seq<Outbound>, oldByTag: map<string, Outbound>,
                         ghost newByTag: map<string, Outbound>)
    returns (ok: bool)
    requires WellTagged(lib, newOut) && newByTag == OutboundMap(newOut)
    ensures ok <==> forall e <- newOut :: OutboundDiffers(newByTag, oldByTag, e.tag) ==> !lib.needsCustomCore(e.raw)
  {
    for i := 0 to |newOut|
      invariant forall j | 0 <= j < i :: OutboundDiffers(newByTag, oldByTag, newOut[j].tag) ==>
        !lib.needsCustomCore(newOut[j].raw)
    {
      OutboundTagIsNew(lib, newOut, i);
      if newOut[i].tag in oldByTag && oldByTag[newOut[i].tag].norm == newOut[i].norm {
        continue;
      }
      if lib.needsCustomCore(newOut[i].raw) {
        return false;
      }
    }
    return true;
  }

  lemma WellTaggedMap(lib: Library, es: seq<Outbound>)
    requires WellTagged(lib, es)
    ensures forall u | u in OutboundMap(es) :: lib.tagOf(OutboundMap(es)[u].raw) == Some(u)
  {
    OutboundMapLists(lib, es);
  }

  /** The removals and additions between two outbound lists; None calls for a restart. */
  method CompareOutbounds(lib: Library, oldOut: seq<Outbound>, newOut: seq<Outbound>)
    returns (changes: Option<(seq<string>, seq<Raw>)>)
    requires WellTagged(lib, oldOut) && WellTagged(lib, newOut)
    ensures changes.Some? <==> OutboundsApplicable(lib, oldOut, newOut)
    ensures changes.Some? ==>
      ListsOutbounds(OutboundMap(oldOut), OutboundMap(newOut), lib,
                     NOTHING.(removedOutbounds := changes.value.0, addedOutbounds := changes.value.1))
  {
    if (|oldOut| == 0) != (|newOut| == 0) {
      return None;
    }
    if |oldOut| > 0 {
      if oldOut[0].tag != newOut[0].tag || oldOut[0].norm != newOut[0].norm {
        return None;
      }
    }
    var oldByTag := IndexOutbounds(oldOut);
    var newByTag := IndexOutbounds(newOut);
    var supported := CheckCustomCore(lib, newOut, oldByTag, newByTag);
    if !supported {
      return None;
    }
    WellTaggedMap(lib, newOut);
    var removed, added := DiffOldOutbounds(lib, oldOut, newByTag, oldByTag);
    added := DiffNewOutbounds(lib, newOut, oldByTag, newByTag, added);
    AdditionsAreDifferences(lib, oldByTag, newByTag, OutboundTags(newOut), added);
    return Some((removed, added));
  }

  lemma AdditionsAreDifferences(lib: Library, o: map<string, Outbound>, n: map<string, Outbound>, tags: set<string>,
                                added: seq<Raw>)
    requires n.Keys <= tags && ListsAdditions(lib, n, DifferingTags(n, o, o.Keys + tags), added)
    ensures forall raw :: raw in added <==> exists t :: OutboundDiffers(n, o, t) && n[t].raw == raw
  {
    assert forall t :: OutboundDiffers(n, o, t) <==> t in DifferingTags(n, o, o.Keys + tags) && t in n;
  }

  /** diffOutbounds. */
  method DiffOutbounds(lib: Library, o: Config, n: Config, diff: HotDiff) returns (ok: bool)
    requires UntouchedElsewhere(NOTHING, diff.View())
    modifies diff
    ensures ok <==>
      && Outbounds(lib, o.outbounds).Some? && Outbounds(lib, n.outbounds).Some?
      && OutboundsApplicable(lib, Outbounds(lib, o.outbounds).value, Outbounds(lib, n.outbounds).value)
    ensures ok ==> ListsOutbounds(OutboundMap(Outbounds(lib, o.outbounds).value),
                                  OutboundMap(Outbounds(lib, n.outbounds).value), lib, diff.View())
    ensures diff.View().(removedOutbounds := [], addedOutbounds := []) == old(diff.View())
  {
    var oldParsed := ParseOutbounds(lib, o.outbounds);
    if oldParsed.None? {
      return false;
    }
    var newParsed := ParseOutbounds(lib, n.outbounds);
    if newParsed.None? {
      return false;
    }
    OutboundsWellTagged(lib, o.outbounds);
    OutboundsWellTagged(lib, n.outbounds);
    var changes := CompareOutbounds(lib, oldParsed.value, newParsed.value);
    if changes.None? {
      return false;
    }
    diff.removedOutboundTags := changes.value.0;
    diff.addedOutbounds := changes.value.1;
    return true;
  }

  // ---------------------------------------------------------------- routing and the whole

  /** diffRouting. */
  method DiffRouting(lib: Library, o: Config, n: Config, diff: HotDiff) returns (ok: bool)
    requires diff.routingConfig.None?
    modifies diff
    ensures ok <==> RoutingApplicable(lib, o.routing, n.routing)
    ensures diff.View() == old(diff.View()).(routing := if ok && o.routing != n.routing then Some(n.routing) else None)
  {
    if o.routing == n.routing {
      return true;
    }
    if |o.routing| == 0 || |n.routing| == 0 {
      return false;
    }
    var oldRest := RoutingRestOf(lib, o.routing);
    if oldRest.None? {
      return false;
    }
    var newRest := RoutingRestOf(lib, n.routing);
    if newRest.None? {
      return false;
    }
    if oldRest != newRest {
      return false;
    }
    diff.routingConfig := Some(n.routing);
    return true;
  }

  /** ComputeHotDiff: succeeds exactly on applicable changes, with exactly their operations. */
  method ComputeHotDiff(lib: Library, o: Option<Config>, n: Option<Config>) returns (r: Option<HotDiff>)
    ensures r.Some? <==> o.Some? && n.Some? && Applicable(lib, o.value, n.value)
    ensures r.Some? ==> fresh(r.value) && IsHotDiff(lib, o.value, n.value, r.value.View())
  {
    if o.None? || n.None? {
      return None;
    }
    var oldStatics, newStatics := Statics(o.value), Statics(n.value);
    for i := 0 to 13
      invariant forall j | 0 <= j < i :: RawEqual(lib, oldStatics[j], newStatics[j])
    {
      if !RawEqual(lib, oldStatics[i], newStatics[i]) {
        return None;
      }
    }
    var diff := new HotDiff();
    var ok := DiffInbounds(lib, o.value, n.value, diff);
    if !ok {
      return None;
    }
    ok := DiffOutbounds(lib, o.value, n.value, diff);
    if !ok {
      return None;
    }
    ok := DiffRouting(lib, o.value, n.value, diff);
    if !ok {
      return None;
    }
    return Some(diff);
  }
}
