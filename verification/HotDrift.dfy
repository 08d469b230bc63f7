/**
  A hot apply on a core that was edited behind the recorded configuration (tryHotApply and its
  reconciling calls, internal/web/service/xray.go): removals tolerate what is absent, additions replace
  what is present.  The run ends in the state of the new configuration exactly when the core differed
  from the old one only where the plan names it.
*/
module HotDrift {
  import opened Wrappers
  import opened Sequences
  import opened HotConfig
  import opened HotDiff
  import opened HotApply
  import opened HotCorrect

  // ---------------------------------------------------------------- tolerant calls

  function SoftRemoveUsers(rt: Runtime, ops: seq<UserOp>): Runtime
    decreases |ops|
  {
    if ops == [] then rt
    else SoftRemoveUsers(rt.(users := rt.users - {(ops[0].tag, ops[0].email)}), ops[1..])
  }

  function SoftRemoveInbounds(rt: Runtime, tags: seq<string>): Runtime
    decreases |tags|
  {
    if tags == [] then rt
    else if tags[0] in rt.inbounds then
      SoftRemoveInbounds(WithoutInbound(rt, tags[0]), tags[1..])
    else SoftRemoveInbounds(rt, tags[1..])
  }

  function WithoutInbound(rt: Runtime, tag: string): Runtime {
    rt.(inbounds := rt.inbounds - {tag}, users := Without(rt.users, {tag}))
  }

  function SoftRemoveOutbounds(rt: Runtime, tags: seq<string>): Runtime
    decreases |tags|
  {
    if tags == [] then rt
    else if tags[0] in rt.outbounds then SoftRemoveOutbounds(WithoutOutbound(rt, tags[0]), tags[1..])
    else SoftRemoveOutbounds(rt, tags[1..])
  }

  function WithoutOutbound(rt: Runtime, tag: string): Runtime {
    rt.(outbounds := rt.outbounds - {tag}, default_ := if rt.default_ == Some(tag) then None else rt.default_)
  }

  function WithOutbound(rt: Runtime, e: Outbound): Runtime {
    rt.(outbounds := rt.outbounds[e.tag := e.norm],
        default_ := if rt.default_.None? then Some(e.tag) else rt.default_)
  }

  /** addOutboundReconciling: an existing handler is deleted first. */
  function PutOutbound(rt: Runtime, e: Outbound): Runtime {
    WithOutbound(if e.tag in rt.outbounds then WithoutOutbound(rt, e.tag) else rt, e)
  }

  function SoftAddOutbounds(lib: Library, rt: Runtime, raws: seq<Raw>): Option<Runtime>
    decreases |raws|
  {
    if raws == [] then Some(rt)
    else match EntryOf(lib, raws[0])
      case None => None
      case Some(e) => SoftAddOutbounds(lib, PutOutbound(rt, e), raws[1..])
  }

  function WithInbound(lib: Library, rt: Runtime, ib: Inbound): Runtime {
    rt.(inbounds := rt.inbounds[ib.tag := CoreOf(lib, ib)], users := rt.users + AllUsers(lib, map[ib.tag := ib]))
  }

  /** addInboundReconciling: an existing handler is deleted first, with its users. */
  function PutInbound(lib: Library, rt: Runtime, ib: Inbound): Runtime {
    WithInbound(lib, if ib.tag in rt.inbounds then WithoutInbound(rt, ib.tag) else rt, ib)
  }

  function SoftAddInbounds(lib: Library, rt: Runtime, ibs: seq<Inbound>): Runtime
    decreases |ibs|
  {
    if ibs == [] then rt else SoftAddInbounds(lib, PutInbound(lib, rt, ibs[0]), ibs[1..])
  }

  /** addUserReconciling: an existing user is replaced; without its inbound the call fails. */
  function SoftAddUsers(rt: Runtime, ops: seq<UserOp>): Option<Runtime>
    decreases |ops|
  {
    if ops == [] then Some(rt)
    else if ops[0].tag in rt.inbounds && ops[0].user.Some? then
      SoftAddUsers(rt.(users := rt.users[(ops[0].tag, ops[0].email) := ops[0].user.value]), ops[1..])
    else None
  }

  function SoftRemove(rt: Runtime, ops: Ops): Runtime {
    SoftRemoveOutbounds(SoftRemoveInbounds(SoftRemoveUsers(rt, ops.removedUsers), ops.removedInbounds),
                        ops.removedOutbounds)
  }

  function SoftAdd(lib: Library, rt: Runtime, ops: Ops): Option<Runtime> {
    var s1 := SoftAddOutbounds(lib, rt, ops.addedOutbounds);
    if s1.None? then None else SoftAddUsers(SoftAddInbounds(lib, s1.value, ops.addedInbounds), ops.addedUsers)
  }

  /** The run of tryHotApply. */
  function SoftExecute(lib: Library, rt: Runtime, ops: Ops): Option<Runtime> {
    var added := SoftAdd(lib, SoftRemove(rt, ops), ops);
    if added.None? then None else ApplyRouting(lib, added.value, ops.routing)
  }

  // ---------------------------------------------------------------- agreement off some names

  datatype Named = Named(inbounds: set<string>, users: set<UserKey>, outbounds: set<string>)

  /** Users live in handlers. */
  predicate Grounded(rt: Runtime) {
    forall k | k in rt.users :: k.0 in rt.inbounds
  }

  /** The two states agree wherever no name points. */
  ghost predicate AgreeOff(r: Runtime, s: Runtime, u: Named) {
    && r.fixed == s.fixed && r.default_ == s.default_
    && (forall t | t !in u.inbounds :: AgreeAt(r.inbounds, s.inbounds, t))
    && (forall k: UserKey | k.0 !in u.inbounds && k !in u.users :: AgreeAt(r.users, s.users, k))
    && (forall t | t !in u.outbounds :: AgreeAt(r.outbounds, s.outbounds, t))
    && Grounded(r) && Grounded(s)
  }

  /** Everything the operations of a plan name. */
  function NamesOf(lib: Library, ops: Ops): Named {
    Named(Elems(ops.removedInbounds) + Tags(ops.addedInbounds), Keys(ops.removedUsers) + Keys(ops.addedUsers),
          Elems(ops.removedOutbounds) + RawTags(lib, ops.addedOutbounds))
  }

  lemma {:induction false} RemoveUsersFollows(r: Runtime, s: Runtime, ops: seq<UserOp>, u: Named)
    requires AgreeOff(r, s, u) && RemoveUsers(s, ops).Some?
    ensures AgreeOff(SoftRemoveUsers(r, ops), RemoveUsers(s, ops).value, u.(users := u.users - Keys(ops)))
    ensures SoftRemoveUsers(r, ops).routing == r.routing && RemoveUsers(s, ops).value.routing == s.routing
    decreases |ops|
  {
    if ops == [] {
      assert u.users - Keys(ops) == u.users;
    } else {
      var key := (ops[0].tag, ops[0].email);
      var r', s', u' := r.(users := r.users - {key}), s.(users := s.users - {key}), u.(users := u.users - {key});
      assert Keys(ops) == {key} + Keys(ops[1..]) by {
        assert ops == [ops[0]] + ops[1..];
      }
      assert AgreeOff(r', s', u');
      RemoveUsersFollows(r', s', ops[1..], u');
      assert u'.users - Keys(ops[1..]) == u.users - Keys(ops);
    }
  }

  lemma WithoutInboundFollows(r: Runtime, s: Runtime, t: string, u: Named)
    requires AgreeOff(r, s, u)
    ensures AgreeOff(if t in r.inbounds then WithoutInbound(r, t) else r, WithoutInbound(s, t),
                     u.(inbounds := u.inbounds - {t}))
  {
  }

  lemma {:induction false} RemoveInboundsFollows(r: Runtime, s: Runtime, tags: seq<string>, u: Named)
    requires AgreeOff(r, s, u) && RemoveInbounds(s, tags).Some?
    ensures AgreeOff(SoftRemoveInbounds(r, tags), RemoveInbounds(s, tags).value,
                     u.(inbounds := u.inbounds - Elems(tags)))
    ensures SoftRemoveInbounds(r, tags).routing == r.routing && RemoveInbounds(s, tags).value.routing == s.routing
    decreases |tags|
  {
    if tags == [] {
      assert u.inbounds - Elems(tags) == u.inbounds;
    } else {
      var t := tags[0];
      var r' := if t in r.inbounds then WithoutInbound(r, t) else r;
      var s', u' := WithoutInbound(s, t), u.(inbounds := u.inbounds - {t});
      assert Elems(tags) == {t} + Elems(tags[1..]) by {
        assert tags == [t] + tags[1..];
      }
      WithoutInboundFollows(r, s, t, u);
      RemoveInboundsFollows(r', s', tags[1..], u');
      assert u'.inbounds - Elems(tags[1..]) == u.inbounds - Elems(tags);
    }
  }

  lemma {:induction false} RemoveOutboundsFollows(r: Runtime, s: Runtime, tags: seq<string>, u: Named)
    requires AgreeOff(r, s, u) && RemoveOutbounds(s, tags).Some? && forall t | t in tags :: s.default_ != Some(t)
    ensures AgreeOff(SoftRemoveOutbounds(r, tags), RemoveOutbounds(s, tags).value,
                     u.(outbounds := u.outbounds - Elems(tags)))
    ensures SoftRemoveOutbounds(r, tags).routing == r.routing && RemoveOutbounds(s, tags).value.routing == s.routing
    decreases |tags|
  {
    if tags == [] {
      assert u.outbounds - Elems(tags) == u.outbounds;
    } else {
      var t := tags[0];
      var r' := if t in r.outbounds then WithoutOutbound(r, t) else r;
      var s', u' := WithoutOutbound(s, t), u.(outbounds := u.outbounds - {t});
      assert Elems(tags) == {t} + Elems(tags[1..]) by {
        assert tags == [t] + tags[1..];
      }
      assert AgreeOff(r', s', u');
      RemoveOutboundsFollows(r', s', tags[1..], u');
      assert u'.outbounds - Elems(tags[1..]) == u.outbounds - Elems(tags);
    }
  }

  lemma RawTagsTail(lib: Library, raws: seq<Raw>)
    requires raws != [] && EntryOf(lib, raws[0]).Some?
    ensures RawTags(lib, raws) == {EntryOf(lib, raws[0]).value.tag} + RawTags(lib, raws[1..])
  {
    assert raws == [raws[0]] + raws[1..];
  }

  lemma PutOutboundFollows(r: Runtime, s: Runtime, e: Outbound, u: Named)
    requires AgreeOff(r, s, u)
    ensures AgreeOff(PutOutbound(r, e), WithOutbound(s, e), u.(outbounds := u.outbounds - {e.tag}))
  {
  }

  lemma {:induction false} AddOutboundsFollows(lib: Library, r: Runtime, s: Runtime, raws: seq<Raw>, u: Named)
    requires AgreeOff(r, s, u) && AddOutbounds(lib, s, raws).Some?
    ensures SoftAddOutbounds(lib, r, raws).Some?
    ensures var r', s' := SoftAddOutbounds(lib, r, raws).value, AddOutbounds(lib, s, raws).value;
      AgreeOff(r', s', u.(outbounds := u.outbounds - RawTags(lib, raws))) && r'.routing == r.routing
        && s'.routing == s.routing
    decreases |raws|
  {
    if raws == [] {
      assert u.outbounds - RawTags(lib, raws) == u.outbounds;
    } else {
      var e := EntryOf(lib, raws[0]).value;
      var r', s', u' := PutOutbound(r, e), WithOutbound(s, e), u.(outbounds := u.outbounds - {e.tag});
      RawTagsTail(lib, raws);
      PutOutboundFollows(r, s, e, u);
      AddOutboundsFollows(lib, r', s', raws[1..], u');
      assert u'.outbounds - RawTags(lib, raws[1..]) == u.outbounds - RawTags(lib, raws);
    }
  }

  /** After an inbound has been put, its users are its own and no others have changed. */
  lemma PutUsers(lib: Library, rt: Runtime, ib: Inbound, k: UserKey)
    requires Grounded(rt)
    ensures AgreeAt(PutInbound(lib, rt, ib).users,
                    if k.0 == ib.tag then AllUsers(lib, map[ib.tag := ib]) else rt.users, k)
  {
    var own := AllUsers(lib, map[ib.tag := ib]);
    assert k in own ==> k.0 == ib.tag;
  }

  lemma PutIsGrounded(lib: Library, rt: Runtime, ib: Inbound)
    requires Grounded(rt)
    ensures Grounded(PutInbound(lib, rt, ib))
  {
    OwnIsGrounded(if ib.tag in rt.inbounds then WithoutInbound(rt, ib.tag) else rt,
                  AllUsers(lib, map[ib.tag := ib]), ib.tag, CoreOf(lib, ib));
  }

  lemma OwnIsGrounded(rt: Runtime, own: map<UserKey, Json>, tag: string, core: Core)
    requires Grounded(rt) && forall k | k in own :: k.0 == tag
    ensures Grounded(rt.(inbounds := rt.inbounds[tag := core], users := rt.users + own))
  {
  }

  lemma PutFollows(lib: Library, r: Runtime, s: Runtime, ib: Inbound, u: Named)
    requires AgreeOff(r, s, u) && ib.tag !in s.inbounds
    ensures AgreeOff(PutInbound(lib, r, ib), WithInbound(lib, s, ib), u.(inbounds := u.inbounds - {ib.tag}))
  {
    var r', s', u' := PutInbound(lib, r, ib), WithInbound(lib, s, ib), u.(inbounds := u.inbounds - {ib.tag});
    forall k: UserKey | k.0 !in u'.inbounds && k !in u'.users ensures AgreeAt(r'.users, s'.users, k) {
      PutUsers(lib, r, ib, k);
      PutUsers(lib, s, ib, k);
      assert k.0 != ib.tag ==> AgreeAt(r.users, s.users, k);
    }
    forall t | t !in u'.inbounds ensures AgreeAt(r'.inbounds, s'.inbounds, t) {
      assert t != ib.tag ==> AgreeAt(r.inbounds, s.inbounds, t);
    }
    PutIsGrounded(lib, r, ib);
    PutIsGrounded(lib, s, ib);
  }

  lemma {:induction false} AddInboundsFollows(lib: Library, r: Runtime, s: Runtime, ibs: seq<Inbound>, u: Named)
    requires AgreeOff(r, s, u) && AddInbounds(lib, s, ibs).Some?
    ensures var r', s' := SoftAddInbounds(lib, r, ibs), AddInbounds(lib, s, ibs).value;
      AgreeOff(r', s', u.(inbounds := u.inbounds - Tags(ibs))) && r'.routing == r.routing && s'.routing == s.routing
    decreases |ibs|
  {
    if ibs == [] {
      assert u.inbounds - Tags(ibs) == u.inbounds;
    } else {
      var ib := ibs[0];
      var r', s', u' := PutInbound(lib, r, ib), WithInbound(lib, s, ib), u.(inbounds := u.inbounds - {ib.tag});
      assert Tags(ibs) == {ib.tag} + Tags(ibs[1..]) by {
        assert ibs == [ib] + ibs[1..];
      }
      PutFollows(lib, r, s, ib, u);
      AddInboundsFollows(lib, r', s', ibs[1..], u');
      assert u'.inbounds - Tags(ibs[1..]) == u.inbounds - Tags(ibs);
    }
  }

  lemma {:induction false} AddUsersFollows(r: Runtime, s: Runtime, ops: seq<UserOp>, u: Named)
    requires AgreeOff(r, s, u) && AddUsers(s, ops).Some? && u.inbounds == {}
    ensures SoftAddUsers(r, ops).Some?
    ensures var r', s' := SoftAddUsers(r, ops).value, AddUsers(s, ops).value;
      AgreeOff(r', s', u.(users := u.users - Keys(ops))) && r'.routing == r.routing && s'.routing == s.routing
    decreases |ops|
  {
    if ops == [] {
      assert u.users - Keys(ops) == u.users;
    } else {
      var key, v := (ops[0].tag, ops[0].email), ops[0].user.value;
      var r', s', u' := r.(users := r.users[key := v]), s.(users := s.users[key := v]), u.(users := u.users - {key});
      assert Keys(ops) == {key} + Keys(ops[1..]) by {
        assert ops == [ops[0]] + ops[1..];
      }
      assert AgreeAt(r.inbounds, s.inbounds, ops[0].tag);
      assert AgreeOff(r', s', u');
      AddUsersFollows(r', s', ops[1..], u');
      assert u'.users - Keys(ops[1..]) == u.users - Keys(ops);
    }
  }

  /** The routing parts that a plan does not replace agree. */
  predicate RoutingAgrees(r: Routing, s: Routing, planned: Option<Raw>) {
    r == s || (planned.Some? && r.Routing? && s.Routing? && r.rest == s.rest)
  }

  lemma AgreeOffNothing(r: Runtime, s: Runtime, u: Named)
    requires AgreeOff(r, s, u) && u == Named({}, {}, {})
    ensures r == s.(routing := r.routing)
  {
    AgreeEverywhere(r.inbounds, s.inbounds);
    AgreeEverywhere(r.users, s.users);
    AgreeEverywhere(r.outbounds, s.outbounds);
  }

  /** What is named by removals only is settled once they have run. */
  lemma RemoveFollows(lib: Library, r: Runtime, s: Runtime, ops: Ops)
    requires AgreeOff(r, s, NamesOf(lib, ops)) && Remove(s, ops).Some?
    requires forall t | t in ops.removedOutbounds :: s.default_ != Some(t)
    ensures AgreeOff(SoftRemove(r, ops), Remove(s, ops).value,
                     Named(Tags(ops.addedInbounds), Keys(ops.addedUsers), RawTags(lib, ops.addedOutbounds)))
    ensures SoftRemove(r, ops).routing == r.routing && Remove(s, ops).value.routing == s.routing
  {
    var u := NamesOf(lib, ops);
    var s1 := RemoveUsers(s, ops.removedUsers).value;
    RemoveUsersFollows(r, s, ops.removedUsers, u);
    var r1, u1 := SoftRemoveUsers(r, ops.removedUsers), u.(users := u.users - Keys(ops.removedUsers));
    RemoveInboundsFollows(r1, s1, ops.removedInbounds, u1);
    var s2 := RemoveInbounds(s1, ops.removedInbounds).value;
    var r2, u2 := SoftRemoveInbounds(r1, ops.removedInbounds),
                  u1.(inbounds := u1.inbounds - Elems(ops.removedInbounds));
    RemovalsKeepDefault(s, ops);
    RemoveOutboundsFollows(r2, s2, ops.removedOutbounds, u2);
    AgreeOffMore(SoftRemove(r, ops), Remove(s, ops).value, u2.(outbounds := u2.outbounds - Elems(ops.removedOutbounds)),
                 Named(Tags(ops.addedInbounds), Keys(ops.addedUsers), RawTags(lib, ops.addedOutbounds)));
  }

  lemma AgreeOffMore(r: Runtime, s: Runtime, u: Named, v: Named)
    requires AgreeOff(r, s, u) && u.inbounds <= v.inbounds && u.users <= v.users && u.outbounds <= v.outbounds
    ensures AgreeOff(r, s, v)
  {
  }

  lemma {:induction false} RemoveUsersOnly(rt: Runtime, ops: seq<UserOp>)
    requires RemoveUsers(rt, ops).Some?
    ensures RemoveUsers(rt, ops).value.default_ == rt.default_
    decreases |ops|
  {
    if ops != [] {
      RemoveUsersOnly(rt.(users := rt.users - {(ops[0].tag, ops[0].email)}), ops[1..]);
    }
  }

  lemma {:induction false} RemoveInboundsOnly(rt: Runtime, tags: seq<string>)
    requires RemoveInbounds(rt, tags).Some?
    ensures RemoveInbounds(rt, tags).value.default_ == rt.default_
    decreases |tags|
  {
    if tags != [] {
      RemoveInboundsOnly(WithoutInbound(rt, tags[0]), tags[1..]);
    }
  }

  lemma RemovalsKeepDefault(s: Runtime, ops: Ops)
    requires Remove(s, ops).Some?
    ensures RemoveInbounds(RemoveUsers(s, ops.removedUsers).value, ops.removedInbounds).value.default_ == s.default_
  {
    RemoveUsersOnly(s, ops.removedUsers);
    RemoveInboundsOnly(RemoveUsers(s, ops.removedUsers).value, ops.removedInbounds);
  }

  lemma AddFollows(lib: Library, r: Runtime, s: Runtime, ops: Ops)
    requires AgreeOff(r, s, Named(Tags(ops.addedInbounds), Keys(ops.addedUsers), RawTags(lib, ops.addedOutbounds)))
    requires Add(lib, s, ops).Some?
    ensures SoftAdd(lib, r, ops).Some?
    ensures SoftAdd(lib, r, ops).value == Add(lib, s, ops).value.(routing := r.routing)
    ensures Add(lib, s, ops).value.routing == s.routing
  {
    var u := Named(Tags(ops.addedInbounds), Keys(ops.addedUsers), RawTags(lib, ops.addedOutbounds));
    AddOutboundsFollows(lib, r, s, ops.addedOutbounds, u);
    var r1, s1 := SoftAddOutbounds(lib, r, ops.addedOutbounds).value, AddOutbounds(lib, s, ops.addedOutbounds).value;
    var u1 := u.(outbounds := u.outbounds - RawTags(lib, ops.addedOutbounds));
    AddInboundsFollows(lib, r1, s1, ops.addedInbounds, u1);
    var r2, s2 := SoftAddInbounds(lib, r1, ops.addedInbounds), AddInbounds(lib, s1, ops.addedInbounds).value;
    var u2 := u1.(inbounds := u1.inbounds - Tags(ops.addedInbounds));
    AddUsersFollows(r2, s2, ops.addedUsers, u2);
    var r3, s3 := SoftAddUsers(r2, ops.addedUsers).value, AddUsers(s2, ops.addedUsers).value;
    AgreeOffNothing(r3, s3, u2.(users := u2.users - Keys(ops.addedUsers)));
  }

  /** A core that differs from a state only where the plan points ends where the strict run from the state ends. */
  lemma ExecuteFollows(lib: Library, r: Runtime, s: Runtime, ops: Ops)
    requires AgreeOff(r, s, NamesOf(lib, ops)) && RoutingAgrees(r.routing, s.routing, ops.routing)
    requires Execute(lib, s, ops).Some? && forall t | t in ops.removedOutbounds :: s.default_ != Some(t)
    ensures SoftExecute(lib, r, ops) == Execute(lib, s, ops)
  {
    RemoveFollows(lib, r, s, ops);
    AddFollows(lib, SoftRemove(r, ops), Remove(s, ops).value, ops);
  }

  // ---------------------------------------------------------------- what the run cannot repair

  /** The second state has what the first has wherever no name points. */
  ghost predicate KeptOff(r: Runtime, s: Runtime, u: Named) {
    && r.fixed == s.fixed && r.routing == s.routing
    && (forall t | t !in u.inbounds :: AgreeAt(r.inbounds, s.inbounds, t))
    && (forall k: UserKey | k.0 !in u.inbounds && k !in u.users :: AgreeAt(r.users, s.users, k))
    && (forall t | t !in u.outbounds :: AgreeAt(r.outbounds, s.outbounds, t))
    && (forall d: string | s.default_ == Some(d) && d !in u.outbounds :: r.default_ == Some(d))
    && (u.outbounds == {} ==> r.default_ == s.default_)
  }

  lemma KeptTwice(r: Runtime, s: Runtime, t: Runtime, u: Named)
    requires KeptOff(r, s, u) && KeptOff(s, t, u)
    ensures KeptOff(r, t, u)
  {
    forall x | x !in u.inbounds ensures AgreeAt(r.inbounds, t.inbounds, x) {
      assert AgreeAt(r.inbounds, s.inbounds, x);
    }
    forall k: UserKey | k.0 !in u.inbounds && k !in u.users ensures AgreeAt(r.users, t.users, k) {
      assert AgreeAt(r.users, s.users, k);
    }
    forall x | x !in u.outbounds ensures AgreeAt(r.outbounds, t.outbounds, x) {
      assert AgreeAt(r.outbounds, s.outbounds, x);
    }
  }

  lemma {:induction false} SoftRemoveUsersKeep(rt: Runtime, ops: seq<UserOp>, u: Named)
    requires Keys(ops) <= u.users
    ensures KeptOff(rt, SoftRemoveUsers(rt, ops), u)
    decreases |ops|
  {
    if ops != [] {
      var key := (ops[0].tag, ops[0].email);
      var next := rt.(users := rt.users - {key});
      assert ops == [ops[0]] + ops[1..] && key in Keys(ops) && Keys(ops[1..]) <= Keys(ops);
      SoftRemoveUsersKeep(next, ops[1..], u);
      KeptTwice(rt, next, SoftRemoveUsers(rt, ops), u);
    }
  }

  lemma {:induction false} SoftRemoveInboundsKeep(rt: Runtime, tags: seq<string>, u: Named)
    requires Elems(tags) <= u.inbounds
    ensures KeptOff(rt, SoftRemoveInbounds(rt, tags), u)
    decreases |tags|
  {
    if tags != [] {
      var next := if tags[0] in rt.inbounds then WithoutInbound(rt, tags[0]) else rt;
      assert tags[0] in Elems(tags) && Elems(tags[1..]) <= Elems(tags);
      SoftRemoveInboundsKeep(next, tags[1..], u);
      KeptTwice(rt, next, SoftRemoveInbounds(rt, tags), u);
    }
  }

  lemma {:induction false} SoftRemoveOutboundsKeep(rt: Runtime, tags: seq<string>, u: Named)
    requires Elems(tags) <= u.outbounds
    ensures KeptOff(rt, SoftRemoveOutbounds(rt, tags), u)
    decreases |tags|
  {
    if tags != [] {
      var next := if tags[0] in rt.outbounds then WithoutOutbound(rt, tags[0]) else rt;
      assert tags[0] in Elems(tags) && Elems(tags[1..]) <= Elems(tags);
      SoftRemoveOutboundsKeep(next, tags[1..], u);
      KeptTwice(rt, next, SoftRemoveOutbounds(rt, tags), u);
    }
  }

  lemma {:induction false} SoftAddOutboundsKeep(lib: Library, rt: Runtime, raws: seq<Raw>, u: Named)
    requires RawTags(lib, raws) <= u.outbounds && SoftAddOutbounds(lib, rt, raws).Some?
    ensures KeptOff(rt, SoftAddOutbounds(lib, rt, raws).value, u)
    decreases |raws|
  {
    if raws != [] {
      var e := EntryOf(lib, raws[0]).value;
      RawTagsTail(lib, raws);
      SoftAddOutboundsKeep(lib, PutOutbound(rt, e), raws[1..], u);
      KeptTwice(rt, PutOutbound(rt, e), SoftAddOutbounds(lib, rt, raws).value, u);
    }
  }

  lemma PutInboundKeeps(lib: Library, rt: Runtime, ib: Inbound, u: Named)
    requires ib.tag in u.inbounds
    ensures KeptOff(rt, PutInbound(lib, rt, ib), u)
  {
    PutElsewhere(rt, AllUsers(lib, map[ib.tag := ib]), ib.tag, CoreOf(lib, ib), u);
  }

  lemma PutElsewhere(rt: Runtime, own: map<UserKey, Json>, tag: string, core: Core, u: Named)
    requires tag in u.inbounds && forall k | k in own :: k.0 == tag
    ensures var free := if tag in rt.inbounds then WithoutInbound(rt, tag) else rt;
      KeptOff(rt, free.(inbounds := free.inbounds[tag := core], users := free.users + own), u)
  {
    var free := if tag in rt.inbounds then WithoutInbound(rt, tag) else rt;
    KeptBut(rt, free.(inbounds := free.inbounds[tag := core], users := free.users + own), tag, u);
  }

  lemma KeptBut(r: Runtime, s: Runtime, tag: string, u: Named)
    requires tag in u.inbounds && s == r.(inbounds := s.inbounds, users := s.users)
    requires forall t | t != tag :: AgreeAt(r.inbounds, s.inbounds, t)
    requires forall k: UserKey | k.0 != tag :: AgreeAt(r.users, s.users, k)
    ensures KeptOff(r, s, u)
  {
  }

  lemma {:induction false} SoftAddInboundsKeep(lib: Library, rt: Runtime, ibs: seq<Inbound>, u: Named)
    requires Tags(ibs) <= u.inbounds
    ensures KeptOff(rt, SoftAddInbounds(lib, rt, ibs), u)
    decreases |ibs|
  {
    if ibs != [] {
      assert ibs == [ibs[0]] + ibs[1..] && ibs[0].tag in Tags(ibs) && Tags(ibs[1..]) <= Tags(ibs);
      PutInboundKeeps(lib, rt, ibs[0], u);
      SoftAddInboundsKeep(lib, PutInbound(lib, rt, ibs[0]), ibs[1..], u);
      KeptTwice(rt, PutInbound(lib, rt, ibs[0]), SoftAddInbounds(lib, rt, ibs), u);
    }
  }

  lemma {:induction false} SoftAddUsersKeep(rt: Runtime, ops: seq<UserOp>, u: Named)
    requires Keys(ops) <= u.users && SoftAddUsers(rt, ops).Some?
    ensures KeptOff(rt, SoftAddUsers(rt, ops).value, u)
    decreases |ops|
  {
    if ops != [] {
      var key := (ops[0].tag, ops[0].email);
      var next := rt.(users := rt.users[key := ops[0].user.value]);
      assert ops == [ops[0]] + ops[1..] && key in Keys(ops) && Keys(ops[1..]) <= Keys(ops);
      SoftAddUsersKeep(next, ops[1..], u);
      KeptTwice(rt, next, SoftAddUsers(rt, ops).value, u);
    }
  }

  /** What no operation names is after the run as it was before. */
  lemma UnnamedIsKept(lib: Library, rt: Runtime, ops: Ops)
    requires SoftAdd(lib, SoftRemove(rt, ops), ops).Some?
    ensures KeptOff(rt, SoftAdd(lib, SoftRemove(rt, ops), ops).value, NamesOf(lib, ops))
  {
    var u := NamesOf(lib, ops);
    var s1 := SoftRemoveUsers(rt, ops.removedUsers);
    var s2 := SoftRemoveInbounds(s1, ops.removedInbounds);
    var s3 := SoftRemoveOutbounds(s2, ops.removedOutbounds);
    var s4 := SoftAddOutbounds(lib, s3, ops.addedOutbounds).value;
    var s5 := SoftAddInbounds(lib, s4, ops.addedInbounds);
    var s6 := SoftAddUsers(s5, ops.addedUsers).value;
    SoftRemoveUsersKeep(rt, ops.removedUsers, u);
    SoftRemoveInboundsKeep(s1, ops.removedInbounds, u);
    SoftRemoveOutboundsKeep(s2, ops.removedOutbounds, u);
    SoftAddOutboundsKeep(lib, s3, ops.addedOutbounds, u);
    SoftAddInboundsKeep(lib, s4, ops.addedInbounds, u);
    SoftAddUsersKeep(s5, ops.addedUsers, u);
    KeptTwice(rt, s1, s2, u);
    KeptTwice(rt, s2, s3, u);
    KeptTwice(rt, s3, s4, u);
    KeptTwice(rt, s4, s5, u);
    KeptTwice(rt, s5, s6, u);
  }

  // ---------------------------------------------------------------- drift

  /** The core differs from one started on the old configuration only where the plan points. */
  ghost predicate DriftedOnly(lib: Library, o: Config, ops: Ops, rt: Runtime)
    requires Addressable(lib, o)
  {
    AgreeOff(rt, StateOf(lib, o), NamesOf(lib, ops)) && RoutingAgrees(rt.routing, StateOf(lib, o).routing, ops.routing)
  }

  lemma StateIsGrounded(lib: Library, c: Config)
    requires Addressable(lib, c)
    ensures Grounded(StateOf(lib, c))
  {
    StateParts(lib, c);
  }

  /** A core in step has not drifted. */
  lemma InStepIsDriftedOnly(lib: Library, o: Config, ops: Ops)
    requires Addressable(lib, o)
    ensures DriftedOnly(lib, o, ops, StateOf(lib, o))
  {
    StateIsGrounded(lib, o);
  }

  /** No operation names the default outbound; without a default there are no outbounds to name. */
  lemma DefaultIsUnnamed(lib: Library, o: Config, n: Config, ops: Ops)
    requires Applicable(lib, o, n) && IsHotDiff(lib, o, n, ops)
    ensures StateOf(lib, o).default_ == StateOf(lib, n).default_
    ensures var u := NamesOf(lib, ops).outbounds;
      match StateOf(lib, n).default_ case Some(d) => d !in u case None => u == {}
  {
    var oe, ne := Outbounds(lib, o.outbounds).value, Outbounds(lib, n.outbounds).value;
    StateParts(lib, o);
    StateParts(lib, n);
    OutboundsWellTagged(lib, o.outbounds);
    OutboundsWellTagged(lib, n.outbounds);
    NamedOutbounds(lib, oe, ne, ops);
  }

  lemma NamedOutbounds(lib: Library, oe: seq<Outbound>, ne: seq<Outbound>, ops: Ops)
    requires WellTagged(lib, oe) && WellTagged(lib, ne) && SameDefault(oe, ne)
    requires ListsOutbounds(OutboundMap(oe), OutboundMap(ne), lib, ops)
    ensures FirstTag(oe) == FirstTag(ne)
    ensures var u := NamesOf(lib, ops).outbounds; match FirstTag(ne) case Some(d) => d !in u case None => u == {}
  {
    var om, nm := OutboundMap(oe), OutboundMap(ne);
    DefaultStays(lib, oe, ne);
    WellTaggedEntries(lib, ne);
    OutboundMapLists(lib, oe);
    OutboundMapLists(lib, ne);
    forall t ensures t in RawTags(lib, ops.addedOutbounds) <==> OutboundDiffers(nm, om, t) {
      AddedOutboundTags(lib, om, nm, ops, t);
    }
    if oe == [] {
      assert om == map[] && nm == map[];
    }
  }

  lemma RunsInStep(lib: Library, o: Config, n: Config, ops: Ops)
    requires Applicable(lib, o, n) && IsHotDiff(lib, o, n, ops)
    ensures SoftExecute(lib, StateOf(lib, o), ops) == Some(StateOf(lib, n))
  {
    HotApplyCorrect(lib, o, n, ops);
    DefaultIsUnnamed(lib, o, n, ops);
    InStepIsDriftedOnly(lib, o, ops);
    ExecuteFollows(lib, StateOf(lib, o), StateOf(lib, o), ops);
  }

  /** A state from which the run ends in a given state, seen off the names of the plan. */
  lemma EndsAlike(lib: Library, r: Runtime, s: Runtime, ops: Ops, end: Runtime)
    requires Grounded(r) && Grounded(s)
    requires SoftExecute(lib, r, ops) == Some(end) && SoftExecute(lib, s, ops) == Some(end)
    requires var u := NamesOf(lib, ops).outbounds; match end.default_ case Some(d) => d !in u case None => u == {}
    ensures AgreeOff(r, s, NamesOf(lib, ops)) && RoutingAgrees(r.routing, s.routing, ops.routing)
  {
    var u := NamesOf(lib, ops);
    var r', s' := SoftAdd(lib, SoftRemove(r, ops), ops).value, SoftAdd(lib, SoftRemove(s, ops), ops).value;
    UnnamedIsKept(lib, r, ops);
    UnnamedIsKept(lib, s, ops);
    assert r' == end.(routing := r.routing) && s' == end.(routing := s.routing);
    forall t | t !in u.inbounds ensures AgreeAt(r.inbounds, s.inbounds, t) {
      assert AgreeAt(r.inbounds, r'.inbounds, t) && AgreeAt(s.inbounds, s'.inbounds, t);
    }
    forall k: UserKey | k.0 !in u.inbounds && k !in u.users ensures AgreeAt(r.users, s.users, k) {
      assert AgreeAt(r.users, r'.users, k) && AgreeAt(s.users, s'.users, k);
    }
    forall t | t !in u.outbounds ensures AgreeAt(r.outbounds, s.outbounds, t) {
      assert AgreeAt(r.outbounds, r'.outbounds, t) && AgreeAt(s.outbounds, s'.outbounds, t);
    }
  }

  /**
    Whatever was done to the core behind the recorded configuration, the run ends in the state of the new
    configuration exactly when it was done where the plan points.
  */
  lemma DriftIsRepairedIff(lib: Library, o: Config, n: Config, ops: Ops, rt: Runtime)
    requires Applicable(lib, o, n) && IsHotDiff(lib, o, n, ops) && Grounded(rt)
    ensures SoftExecute(lib, rt, ops) == Some(StateOf(lib, n)) <==> DriftedOnly(lib, o, ops, rt)
  {
    DefaultIsUnnamed(lib, o, n, ops);
    RunsInStep(lib, o, n, ops);
    if DriftedOnly(lib, o, ops, rt) {
      HotApplyCorrect(lib, o, n, ops);
      ExecuteFollows(lib, rt, StateOf(lib, o), ops);
    } else if SoftExecute(lib, rt, ops) == Some(StateOf(lib, n)) {
      StateIsGrounded(lib, o);
      EndsAlike(lib, rt, StateOf(lib, o), ops, StateOf(lib, n));
    }
  }

  // ---------------------------------------------------------------- when the run succeeds

  lemma {:induction false} SoftAddOutboundsSucceeds(lib: Library, rt: Runtime, raws: seq<Raw>)
    ensures SoftAddOutbounds(lib, rt, raws).Some? <==> forall raw | raw in raws :: EntryOf(lib, raw).Some?
    decreases |raws|
  {
    if raws != [] {
      assert raws == [raws[0]] + raws[1..];
      if EntryOf(lib, raws[0]).Some? {
        SoftAddOutboundsSucceeds(lib, PutOutbound(rt, EntryOf(lib, raws[0]).value), raws[1..]);
      }
    }
  }

  lemma {:induction false} SoftAddUsersSucceeds(rt: Runtime, ops: seq<UserOp>)
    ensures SoftAddUsers(rt, ops).Some? <==> forall op | op in ops :: op.tag in rt.inbounds && op.user.Some?
    decreases |ops|
  {
    if ops != [] {
      assert ops == [ops[0]] + ops[1..];
      if ops[0].tag in rt.inbounds && ops[0].user.Some? {
        SoftAddUsersSucceeds(rt.(users := rt.users[(ops[0].tag, ops[0].email) := ops[0].user.value]), ops[1..]);
      }
    }
  }

  /** The core has every inbound that is given a client, and a router if routing changes. */
  predicate Takes(rt: Runtime, ops: Ops) {
    (forall op | op in ops.addedUsers :: op.tag in rt.inbounds) && (ops.routing.Some? ==> rt.routing.Routing?)
  }

  /** Before users are added and routing is applied. */
  function Prepared(lib: Library, rt: Runtime, ops: Ops): Option<Runtime> {
    var s := SoftAddOutbounds(lib, SoftRemove(rt, ops), ops.addedOutbounds);
    if s.None? then None else Some(SoftAddInbounds(lib, s.value, ops.addedInbounds))
  }

  lemma PreparedKeeps(lib: Library, rt: Runtime, ops: Ops)
    requires Prepared(lib, rt, ops).Some?
    ensures KeptOff(rt, Prepared(lib, rt, ops).value, NamesOf(lib, ops))
  {
    var bare := ops.(addedUsers := []);
    assert SoftRemove(rt, bare) == SoftRemove(rt, ops);
    UnnamedIsKept(lib, rt, bare);
    KeptOffMore(rt, Prepared(lib, rt, ops).value, NamesOf(lib, bare), NamesOf(lib, ops));
  }

  lemma KeptOffMore(r: Runtime, s: Runtime, u: Named, v: Named)
    requires KeptOff(r, s, u) && u.inbounds <= v.inbounds && u.users <= v.users && u.outbounds == v.outbounds
    ensures KeptOff(r, s, v)
  {
  }

  /** The parts of a plan that a core cannot refuse: its entries parse, its users are values of kept inbounds. */
  ghost predicate Sound(lib: Library, ops: Ops) {
    && (forall raw | raw in ops.addedOutbounds :: EntryOf(lib, raw).Some?)
    && (forall op | op in ops.addedUsers :: op.user.Some? && op.tag !in NamesOf(lib, ops).inbounds)
    && (ops.routing.Some? ==> RoutingOf(lib, ops.routing.value).Routing?)
  }

  lemma SoundSucceeds(lib: Library, rt: Runtime, ops: Ops)
    requires Sound(lib, ops)
    ensures SoftExecute(lib, rt, ops).Some? <==> Takes(rt, ops)
  {
    SoftAddOutboundsSucceeds(lib, SoftRemove(rt, ops), ops.addedOutbounds);
    var ready := Prepared(lib, rt, ops).value;
    PreparedKeeps(lib, rt, ops);
    SoftAddUsersSucceeds(ready, ops.addedUsers);
    forall op | op in ops.addedUsers ensures op.tag in ready.inbounds <==> op.tag in rt.inbounds {
      assert AgreeAt(rt.inbounds, ready.inbounds, op.tag);
    }
    if SoftAddUsers(ready, ops.addedUsers).Some? {
      SoftAddUsersKeep(ready, ops.addedUsers, NamesOf(lib, ops));
    }
  }

  lemma PlannedEntriesParse(lib: Library, oe: map<string, Outbound>, ne: seq<Outbound>, ops: Ops)
    requires WellTagged(lib, ne) && ListsOutbounds(oe, OutboundMap(ne), lib, ops)
    ensures forall raw | raw in ops.addedOutbounds :: EntryOf(lib, raw).Some?
  {
    WellTaggedEntries(lib, ne);
  }

  lemma PlannedUsersStay(lib: Library, ctx: Inbounds, ops: Ops, op: UserOp)
    requires Planned(lib, ctx, ops) && op in ops.addedUsers
    ensures op.user.Some? && op.tag !in Elems(ops.removedInbounds) && op.tag !in Tags(ops.addedInbounds)
  {
    assert PutsUser(lib, ctx, op);
    AddedTags(lib, ctx, ops, op.tag);
  }

  lemma PlansAreSound(lib: Library, o: Config, n: Config, ops: Ops)
    requires Applicable(lib, o, n) && IsHotDiff(lib, o, n, ops)
    ensures Sound(lib, ops)
  {
    PlanIsPlanned(lib, o, n, ops);
    OutboundsWellTagged(lib, n.outbounds);
    PlannedEntriesParse(lib, OutboundMap(Outbounds(lib, o.outbounds).value), Outbounds(lib, n.outbounds).value, ops);
    forall op | op in ops.addedUsers ensures op.user.Some? && op.tag !in NamesOf(lib, ops).inbounds {
      PlannedUsersStay(lib, InboundsOf(lib, o, n), ops, op);
    }
    if o.routing != n.routing {
      PlannedRouting(lib, o.routing, n.routing);
    }
  }

  lemma PlannedRouting(lib: Library, o: Raw, n: Raw)
    requires RoutingApplicable(lib, o, n) && o != n
    ensures RoutingOf(lib, n).Routing?
  {
  }

  /** Whether a run succeeds does not depend on the order of its operations, but on what the core has. */
  lemma SucceedsIff(lib: Library, o: Config, n: Config, ops: Ops, rt: Runtime)
    requires Applicable(lib, o, n) && IsHotDiff(lib, o, n, ops)
    ensures SoftExecute(lib, rt, ops).Some? <==> Takes(rt, ops)
  {
    PlansAreSound(lib, o, n, ops);
    SoundSucceeds(lib, rt, ops);
  }
}
