/**
  A hot apply that breaks off (tryHotApply in internal/web/service/xray.go): a failing call leaves
  the core with the first operations of the plan applied.  What ran up to there succeeded, and inbounds
  the plan does not name, the panel's own among them, are as they were.
*/
module HotPartial {
  import opened Wrappers
  import opened HotConfig
  import opened HotDiff
  import opened HotApply
  import opened HotCorrect
  import opened HotDrift

  function Cut<T>(s: seq<T>, n: nat): (t: seq<T>)
    ensures n == 0 ==> t == []
    ensures n >= |s| ==> t == s
    ensures forall x | x in t :: x in s
  {
    if n <= |s| then s[..n] else s
  }

  function Past(n: nat, k: nat): nat {
    if n <= k then 0 else n - k
  }

  /** The removals among the first `n` operations, in the order they are executed. */
  function FirstRemovals(ops: Ops, n: nat): Ops {
    var inbounds := Past(n, |ops.removedUsers|);
    var outbounds := Past(inbounds, |ops.removedInbounds|);
    NOTHING.(removedUsers := Cut(ops.removedUsers, n), removedInbounds := Cut(ops.removedInbounds, inbounds),
             removedOutbounds := Cut(ops.removedOutbounds, outbounds))
  }

  function Removals(ops: Ops): nat {
    |ops.removedUsers| + |ops.removedInbounds| + |ops.removedOutbounds|
  }

  /** The additions, and routing, among the first `n` operations after the removals. */
  function FirstAdditions(ops: Ops, n: nat): Ops {
    var inbounds := Past(n, |ops.addedOutbounds|);
    var users := Past(inbounds, |ops.addedInbounds|);
    NOTHING.(addedOutbounds := Cut(ops.addedOutbounds, n), addedInbounds := Cut(ops.addedInbounds, inbounds),
             addedUsers := Cut(ops.addedUsers, users),
             routing := if users > |ops.addedUsers| then ops.routing else None)
  }

  /** The first `n` operations of a plan. */
  function FirstOps(ops: Ops, n: nat): Ops {
    var removed, added := FirstRemovals(ops, n), FirstAdditions(ops, Past(n, Removals(ops)));
    Ops(removed.removedInbounds, added.addedInbounds, removed.removedUsers, added.addedUsers,
        removed.removedOutbounds, added.addedOutbounds, added.routing)
  }

  // ---------------------------------------------------------------- no refusal on the way

  lemma {:induction false} CutRemoveUsers(rt: Runtime, ops: seq<UserOp>, n: nat)
    requires RemoveUsers(rt, ops).Some?
    ensures RemoveUsers(rt, Cut(ops, n)).Some?
    decreases |ops|
  {
    if 0 < n < |ops| {
      assert Cut(ops, n)[1..] == Cut(ops[1..], n - 1);
      CutRemoveUsers(rt.(users := rt.users - {(ops[0].tag, ops[0].email)}), ops[1..], n - 1);
    }
  }

  lemma {:induction false} CutRemoveInbounds(rt: Runtime, tags: seq<string>, n: nat)
    requires RemoveInbounds(rt, tags).Some?
    ensures RemoveInbounds(rt, Cut(tags, n)).Some?
    decreases |tags|
  {
    if 0 < n < |tags| {
      assert Cut(tags, n)[1..] == Cut(tags[1..], n - 1);
      CutRemoveInbounds(rt.(inbounds := rt.inbounds - {tags[0]}, users := Without(rt.users, {tags[0]})), tags[1..],
                        n - 1);
    }
  }

  lemma {:induction false} CutRemoveOutbounds(rt: Runtime, tags: seq<string>, n: nat)
    requires RemoveOutbounds(rt, tags).Some?
    ensures RemoveOutbounds(rt, Cut(tags, n)).Some?
    decreases |tags|
  {
    if 0 < n < |tags| {
      assert Cut(tags, n)[1..] == Cut(tags[1..], n - 1);
      CutRemoveOutbounds(
        rt.(outbounds := rt.outbounds - {tags[0]},
            default_ := if rt.default_ == Some(tags[0]) then None else rt.default_),
        tags[1..], n - 1);
    }
  }

  lemma {:induction false} CutAddOutbounds(lib: Library, rt: Runtime, raws: seq<Raw>, n: nat)
    requires AddOutbounds(lib, rt, raws).Some?
    ensures AddOutbounds(lib, rt, Cut(raws, n)).Some?
    decreases |raws|
  {
    if 0 < n < |raws| {
      var e := EntryOf(lib, raws[0]).value;
      assert Cut(raws, n)[1..] == Cut(raws[1..], n - 1);
      CutAddOutbounds(lib,
        rt.(outbounds := rt.outbounds[e.tag := e.norm],
            default_ := if rt.default_.None? then Some(e.tag) else rt.default_),
        raws[1..], n - 1);
    }
  }

  lemma AddsFirstInbound(lib: Library, rt: Runtime, ibs: seq<Inbound>)
    requires ibs != []
    ensures AddInbounds(lib, rt, ibs)
         == if ibs[0].tag in rt.inbounds then None else AddInbounds(lib, WithInbound(lib, rt, ibs[0]), ibs[1..])
  {
  }

  lemma {:induction false} CutAddInbounds(lib: Library, rt: Runtime, ibs: seq<Inbound>, n: nat)
    requires AddInbounds(lib, rt, ibs).Some?
    ensures AddInbounds(lib, rt, Cut(ibs, n)).Some?
    decreases |ibs|
  {
    if 0 < n < |ibs| {
      assert Cut(ibs, n)[1..] == Cut(ibs[1..], n - 1) && Cut(ibs, n)[0] == ibs[0];
      AddsFirstInbound(lib, rt, ibs);
      AddsFirstInbound(lib, rt, Cut(ibs, n));
      CutAddInbounds(lib, WithInbound(lib, rt, ibs[0]), ibs[1..], n - 1);
    }
  }

  lemma {:induction false} CutAddUsers(rt: Runtime, ops: seq<UserOp>, n: nat)
    requires AddUsers(rt, ops).Some?
    ensures AddUsers(rt, Cut(ops, n)).Some?
    decreases |ops|
  {
    if 0 < n < |ops| {
      assert Cut(ops, n)[1..] == Cut(ops[1..], n - 1);
      CutAddUsers(rt.(users := rt.users[(ops[0].tag, ops[0].email) := ops[0].user.value]), ops[1..], n - 1);
    }
  }

  lemma FirstRemovalsRun(rt: Runtime, ops: Ops, n: nat)
    requires Remove(rt, ops).Some?
    ensures Remove(rt, FirstOps(ops, n)).Some?
    ensures n >= Removals(ops) ==> Remove(rt, FirstOps(ops, n)) == Remove(rt, ops)
  {
    var first, s1 := FirstOps(ops, n), RemoveUsers(rt, ops.removedUsers).value;
    CutRemoveUsers(rt, ops.removedUsers, n);
    if n > |ops.removedUsers| {
      var m := n - |ops.removedUsers|;
      CutRemoveInbounds(s1, ops.removedInbounds, m);
      if m > |ops.removedInbounds| {
        CutRemoveOutbounds(RemoveInbounds(s1, ops.removedInbounds).value, ops.removedOutbounds,
                           m - |ops.removedInbounds|);
      }
    }
  }

  lemma FirstHandlersRun(lib: Library, rt: Runtime, ops: Ops, n: nat)
    requires Add(lib, rt, ops).Some? && n <= |ops.addedOutbounds| + |ops.addedInbounds|
    ensures var first := FirstAdditions(ops, n);
      Add(lib, rt, first).Some? && first.routing.None?
  {
    CutAddOutbounds(lib, rt, ops.addedOutbounds, n);
    if n > |ops.addedOutbounds| {
      var s1 := AddOutbounds(lib, rt, ops.addedOutbounds).value;
      CutAddInbounds(lib, s1, ops.addedInbounds, n - |ops.addedOutbounds|);
    }
  }

  lemma FirstAdditionsRun(lib: Library, rt: Runtime, ops: Ops, n: nat)
    requires Add(lib, rt, ops).Some? && ApplyRouting(lib, Add(lib, rt, ops).value, ops.routing).Some?
    ensures var first := FirstAdditions(ops, n);
      Add(lib, rt, first).Some? && ApplyRouting(lib, Add(lib, rt, first).value, first.routing).Some?
  {
    var handlers := |ops.addedOutbounds| + |ops.addedInbounds|;
    if n <= handlers {
      FirstHandlersRun(lib, rt, ops, n);
    } else {
      var s1 := AddOutbounds(lib, rt, ops.addedOutbounds).value;
      CutAddUsers(AddInbounds(lib, s1, ops.addedInbounds).value, ops.addedUsers, n - handlers);
    }
  }

  /** A plan that runs without refusal runs so up to any point. */
  lemma FirstOpsRun(lib: Library, rt: Runtime, ops: Ops, n: nat)
    requires Execute(lib, rt, ops).Some?
    ensures Execute(lib, rt, FirstOps(ops, n)).Some?
  {
    FirstRemovalsRun(rt, ops, n);
    var m := Past(n, Removals(ops));
    if n > Removals(ops) {
      FirstAdditionsRun(lib, Remove(rt, ops).value, ops, m);
      SameAdditions(lib, Remove(rt, ops).value, FirstAdditions(ops, m), FirstOps(ops, n));
    }
  }

  lemma SameAdditions(lib: Library, rt: Runtime, a: Ops, b: Ops)
    requires a.addedOutbounds == b.addedOutbounds && a.addedInbounds == b.addedInbounds && a.addedUsers == b.addedUsers
    ensures Add(lib, rt, a) == Add(lib, rt, b)
  {
  }

  /** Every operation of a plan, routing included. */
  function Size(ops: Ops): nat {
    Removals(ops) + |ops.addedOutbounds| + |ops.addedInbounds| + |ops.addedUsers| + 1
  }

  lemma AllOfIt(ops: Ops, n: nat)
    requires n >= Size(ops)
    ensures FirstOps(ops, n) == ops
  {
  }

  // ---------------------------------------------------------------- the same, tolerantly

  lemma {:induction false} CutSoftAddOutbounds(lib: Library, rt: Runtime, raws: seq<Raw>, n: nat)
    requires SoftAddOutbounds(lib, rt, raws).Some?
    ensures SoftAddOutbounds(lib, rt, Cut(raws, n)).Some?
    decreases |raws|
  {
    if 0 < n < |raws| {
      assert Cut(raws, n)[1..] == Cut(raws[1..], n - 1);
      CutSoftAddOutbounds(lib, PutOutbound(rt, EntryOf(lib, raws[0]).value), raws[1..], n - 1);
    }
  }

  lemma {:induction false} CutSoftAddUsers(rt: Runtime, ops: seq<UserOp>, n: nat)
    requires SoftAddUsers(rt, ops).Some?
    ensures SoftAddUsers(rt, Cut(ops, n)).Some?
    decreases |ops|
  {
    if 0 < n < |ops| {
      assert Cut(ops, n)[1..] == Cut(ops[1..], n - 1);
      CutSoftAddUsers(rt.(users := rt.users[(ops[0].tag, ops[0].email) := ops[0].user.value]), ops[1..], n - 1);
    }
  }

  lemma SoftAdditionsRun(lib: Library, rt: Runtime, ops: Ops, n: nat)
    requires SoftAdd(lib, rt, ops).Some? && ApplyRouting(lib, SoftAdd(lib, rt, ops).value, ops.routing).Some?
    ensures var first := FirstAdditions(ops, n);
      SoftAdd(lib, rt, first).Some? && ApplyRouting(lib, SoftAdd(lib, rt, first).value, first.routing).Some?
  {
    CutSoftAddOutbounds(lib, rt, ops.addedOutbounds, n);
    if n > |ops.addedOutbounds| {
      var m := n - |ops.addedOutbounds|;
      if m > |ops.addedInbounds| {
        var s2 := SoftAddInbounds(lib, SoftAddOutbounds(lib, rt, ops.addedOutbounds).value, ops.addedInbounds);
        CutSoftAddUsers(s2, ops.addedUsers, m - |ops.addedInbounds|);
      }
    }
  }

  lemma SameSoftAdditions(lib: Library, rt: Runtime, a: Ops, b: Ops)
    requires a.addedOutbounds == b.addedOutbounds && a.addedInbounds == b.addedInbounds && a.addedUsers == b.addedUsers
    ensures SoftAdd(lib, rt, a) == SoftAdd(lib, rt, b)
  {
  }

  /** The tolerant run, too, can be cut anywhere. */
  lemma SoftFirstOpsRun(lib: Library, rt: Runtime, ops: Ops, n: nat)
    requires SoftExecute(lib, rt, ops).Some?
    ensures SoftExecute(lib, rt, FirstOps(ops, n)).Some?
  {
    var m := Past(n, Removals(ops));
    if n > Removals(ops) {
      assert SoftRemove(rt, FirstOps(ops, n)) == SoftRemove(rt, ops);
      SoftAdditionsRun(lib, SoftRemove(rt, ops), ops, m);
      SameSoftAdditions(lib, SoftRemove(rt, ops), FirstAdditions(ops, m), FirstOps(ops, n));
    }
  }

  // ---------------------------------------------------------------- what stays as it was

  /** No operation of the plan names the inbound. */
  predicate Unnamed(ops: Ops, t: string) {
    && t !in ops.removedInbounds && (forall ib | ib in ops.addedInbounds :: ib.tag != t)
    && (forall op | op in ops.removedUsers :: op.tag != t) && (forall op | op in ops.addedUsers :: op.tag != t)
  }

  /** The inbound and its users are alike in both states. */
  ghost predicate SameInbound(r: Runtime, s: Runtime, t: string) {
    AgreeAt(r.inbounds, s.inbounds, t) && forall e: string :: AgreeAt(r.users, s.users, (t, e))
  }

  lemma UnnamedInboundIsKept(lib: Library, r: Runtime, s: Runtime, ops: Ops, t: string)
    requires KeptOff(r, s, NamesOf(lib, ops)) && Unnamed(ops, t)
    ensures SameInbound(r, s, t)
  {
    forall e: string ensures AgreeAt(r.users, s.users, (t, e)) {
      var k: UserKey := (t, e);
      assert k.0 !in NamesOf(lib, ops).inbounds && k !in NamesOf(lib, ops).users;
    }
  }

  lemma UnnamedInFirstOps(ops: Ops, n: nat, t: string)
    requires Unnamed(ops, t)
    ensures Unnamed(FirstOps(ops, n), t)
  {
  }

  /** A run, or the first part of one, leaves alone what its plan does not name. */
  lemma ExecuteKeeps(lib: Library, rt: Runtime, ops: Ops, t: string)
    requires SoftExecute(lib, rt, ops).Some? && Unnamed(ops, t)
    ensures SameInbound(rt, SoftExecute(lib, rt, ops).value, t)
  {
    UnnamedIsKept(lib, rt, ops);
    UnnamedInboundIsKept(lib, rt, SoftAdd(lib, SoftRemove(rt, ops), ops).value, ops, t);
  }

  /**
    Wherever a plan breaks off on a core that differs from the old configuration only where the plan
    points: every call up to there succeeds, and on a core in step meets no refusal; the inbound the panel
    talks through is unharmed with its users, and so is any other the plan does not name.
  */
  lemma BrokenOffPlan(lib: Library, o: Config, n: Config, ops: Ops, rt: Runtime, k: nat)
    requires Applicable(lib, o, n) && IsHotDiff(lib, o, n, ops) && DriftedOnly(lib, o, ops, rt)
    ensures Execute(lib, StateOf(lib, o), FirstOps(ops, k)).Some?
    ensures SoftExecute(lib, rt, FirstOps(ops, k)).Some?
    ensures k >= Size(ops) ==> SoftExecute(lib, rt, FirstOps(ops, k)).value == StateOf(lib, n)
    ensures var broken := SoftExecute(lib, rt, FirstOps(ops, k)).value;
      && SameInbound(rt, broken, ApiTag(lib, n.api))
      && forall t | Unnamed(ops, t) :: SameInbound(rt, broken, t)
  {
    HotApplyCorrect(lib, o, n, ops);
    FirstOpsRun(lib, StateOf(lib, o), ops, k);
    DriftIsRepairedIff(lib, o, n, ops, rt);
    SoftFirstOpsRun(lib, rt, ops, k);
    if k >= Size(ops) {
      AllOfIt(ops, k);
    }
    ApiUnnamed(lib, o, n, ops);
    forall t | Unnamed(ops, t) ensures SameInbound(rt, SoftExecute(lib, rt, FirstOps(ops, k)).value, t) {
      UnnamedInFirstOps(ops, k, t);
      ExecuteKeeps(lib, rt, FirstOps(ops, k), t);
    }
  }

  lemma ApiUnnamed(lib: Library, o: Config, n: Config, ops: Ops)
    requires Applicable(lib, o, n) && IsHotDiff(lib, o, n, ops)
    ensures Unnamed(ops, ApiTag(lib, n.api))
  {
    ApiInboundUntouched(lib, o, n, ops);
    assert forall op | op in ops.removedUsers :: op in ops.removedUsers + ops.addedUsers;
    assert forall op | op in ops.addedUsers :: op in ops.removedUsers + ops.addedUsers;
  }
}
