/**
  What reconciling the mtg sidecars achieves (internal/mtproto/manager.go): exactly the desired
  processes run, nothing leaks, nothing restarts without need.
*/
module MtprotoReconcile {
  import opened Wrappers
  import opened MtprotoConfig
  import opened MtprotoManager

  /** A live process of this instance, started or updated to exactly its configuration. */
  predicate Serves(s: State, inst: Instance) {
    && inst.id in s.procs
    && var m := s.procs[inst.id];
    && m.proc in s.live && m.tag == inst.tag
    && m.structuralFP == s.prints.structural(inst) && m.secretsFP == s.prints.secrets(inst.secrets)
  }

  /** Nothing about this inbound differs. */
  ghost predicate SameFor(s: State, t: State, id: InboundId) {
    && s.prints == t.prints && (id in s.procs <==> id in t.procs)
    && (id in s.procs ==> s.procs[id] == t.procs[id] && (s.procs[id].proc in s.live <==> t.procs[id].proc in t.live))
  }

  predicate DistinctIds(desired: seq<Instance>) {
    forall i, j :: 0 <= i < j < |desired| ==> desired[i].id != desired[j].id
  }

  // ---------------------------------------------------------------- one ensure

  /** An ensure succeeds exactly when a live process with both fingerprints is managed afterwards. */
  lemma EnsureServes(s: State, inst: Instance, o: Outcome)
    requires Valid(s)
    ensures var (t, ok) := Ensured(s, inst, o); ok <==> Serves(t, inst)
  {
    if inst.id in s.procs {
      assert Recorded(s, inst.id);
    }
  }

  /**
    After a successful ensure the inbound is recorded with its tag; a new process with the answered port and
    token and no baselines, an old one with those it had.
  */
  lemma EnsureRecords(s: State, inst: Instance, o: Outcome)
    requires Valid(s) && Ensured(s, inst, o).1
    ensures var t := Ensured(s, inst, o).0;
      && inst.id in t.procs && t.procs[inst.id].tag == inst.tag
      && var m := t.procs[inst.id];
         if m.proc.pid == s.next then
           o.port == Some(m.apiPort) && o.token == Some(m.apiToken) && o.written && o.started && m.last == map[]
         else
           && inst.id in s.procs && m.proc == s.procs[inst.id].proc && m.last == s.procs[inst.id].last
           && m.apiPort == s.procs[inst.id].apiPort && m.apiToken == s.procs[inst.id].apiToken
  {
    if inst.id in s.procs {
      assert Recorded(s, inst.id);
    }
  }

  lemma DiscardTouchesNoOther(s: State, gone: set<InboundId>, id: InboundId)
    requires Valid(s) && id !in gone
    ensures SameFor(s, Discard(s, gone), id)
  {
    assert id in s.procs ==> forall j <- gone :: j in s.procs ==> s.procs[j].proc != s.procs[id].proc;
  }

  lemma LaunchTouchesOne(s: State, inst: Instance, o: Outcome, id: InboundId)
    requires Valid(s) && id != inst.id
    ensures SameFor(s, Launch(s, inst, o).0, id)
  {
    assert id in s.procs ==> Recorded(s, id);
  }

  lemma UpdateTouchesOne(s: State, inst: Instance, id: InboundId)
    requires Valid(s) && id != inst.id && inst.id in s.procs && Recorded(s, inst.id)
    ensures SameFor(s, Retag(s, inst), id) && SameFor(s, TakeSecrets(s, inst), id)
  {
  }

  lemma RestartTouchesOne(s: State, inst: Instance, o: Outcome, id: InboundId)
    requires Valid(s) && id != inst.id
    ensures SameFor(s, Launch(Discard(s, {inst.id}), inst, o).0, id)
  {
    DiscardTouchesNoOther(s, {inst.id}, id);
    DiscardKeeps(s, {inst.id});
    LaunchTouchesOne(Discard(s, {inst.id}), inst, o, id);
  }

  lemma EnsureTouchesOne(s: State, inst: Instance, o: Outcome, id: InboundId)
    requires Valid(s) && id != inst.id
    ensures SameFor(s, Ensured(s, inst, o).0, id)
  {
    if inst.id in s.procs {
      assert Recorded(s, inst.id);
      UpdateTouchesOne(s, inst, id);
      RestartTouchesOne(s, inst, o, id);
    } else {
      LaunchTouchesOne(s, inst, o, id);
    }
  }

  lemma EnsureTouchesNoOtherKey(s: State, inst: Instance, o: Outcome)
    requires Valid(s)
    ensures Ensured(s, inst, o).0.procs.Keys <= s.procs.Keys + {inst.id}
    ensures Ensured(s, inst, o).0.prints == s.prints
  {
  }

  /** The process that serves an inbound stays. */
  predicate KeepsProc(s: State, t: State, id: InboundId) {
    && id in s.procs && id in t.procs && t.procs[id].proc == s.procs[id].proc && t.procs[id].proc in t.live
  }

  /** Only clients changed: a live process goes on, unless it was asked to take the new secrets and did not. */
  lemma SecretsChangeKeepsProcess(s: State, inst: Instance, o: Outcome)
    requires Valid(s) && inst.id in s.procs && s.procs[inst.id].proc in s.live
    requires s.procs[inst.id].structuralFP == s.prints.structural(inst)
    ensures KeepsProc(s, Ensured(s, inst, o).0, inst.id) <==>
      !(s.procs[inst.id].secretsFP != s.prints.secrets(inst.secrets) && o.rewritten && !o.applied)
  {
    assert Recorded(s, inst.id);
    assert ProcsOf(s.procs, {inst.id}) == {s.procs[inst.id].proc};
  }

  // ---------------------------------------------------------------- the whole loop

  lemma {:induction false} LoopTouchesOnlyDesired(s: State, desired: seq<Instance>, outcomes: seq<Outcome>,
                                                  id: InboundId)
    requires Valid(s) && |desired| == |outcomes| && id !in Ids(desired)
    ensures SameFor(s, EnsuredAll(s, desired, outcomes).0, id)
    decreases |desired|
  {
    if desired != [] {
      var n := |desired| - 1;
      assert desired == desired[..n] + [desired[n]];
      LoopTouchesOnlyDesired(s, desired[..n], outcomes[..n], id);
      assert desired[n] in desired;
      EnsureTouchesOne(EnsuredAll(s, desired[..n], outcomes[..n]).0, desired[n], outcomes[n], id);
    }
  }

  lemma {:induction false} LoopManagesOnlyDesired(s: State, desired: seq<Instance>, outcomes: seq<Outcome>)
    requires Valid(s) && |desired| == |outcomes|
    ensures EnsuredAll(s, desired, outcomes).0.procs.Keys <= s.procs.Keys + Ids(desired)
    ensures EnsuredAll(s, desired, outcomes).0.prints == s.prints
    ensures Orphans(EnsuredAll(s, desired, outcomes).0) == Orphans(s)
    decreases |desired|
  {
    if desired != [] {
      var n := |desired| - 1;
      assert desired == desired[..n] + [desired[n]];
      var front := EnsuredAll(s, desired[..n], outcomes[..n]).0;
      LoopManagesOnlyDesired(s, desired[..n], outcomes[..n]);
      EnsureTouchesNoOtherKey(front, desired[n], outcomes[n]);
      EnsureKeeps(front, desired[n], outcomes[n]);
      assert Ids(desired) == Ids(desired[..n]) + {desired[n].id};
    }
  }

  /** With distinct ids, what the loop did to one instance is its own ensure, from the state before the loop. */
  lemma {:induction false} LoopIsIndependent(s: State, desired: seq<Instance>, outcomes: seq<Outcome>, k: nat)
    returns (at: State)
    requires Valid(s) && |desired| == |outcomes| && DistinctIds(desired) && k < |desired|
    ensures Valid(at) && SameFor(s, at, desired[k].id)
    ensures SameFor(Ensured(at, desired[k], outcomes[k]).0, EnsuredAll(s, desired, outcomes).0, desired[k].id)
    ensures EnsuredAll(s, desired, outcomes).1[k] == Ensured(at, desired[k], outcomes[k]).1
    decreases |desired|
  {
    var n := |desired| - 1;
    assert desired == desired[..n] + [desired[n]];
    var front := EnsuredAll(s, desired[..n], outcomes[..n]);
    if k == n {
      at := front.0;
      IdNotBefore(desired, n);
      LoopTouchesOnlyDesired(s, desired[..n], outcomes[..n], desired[n].id);
    } else {
      at := LoopIsIndependent(s, desired[..n], outcomes[..n], k);
      assert desired[..n][k] == desired[k] && outcomes[..n][k] == outcomes[k];
      EnsureTouchesOne(front.0, desired[n], outcomes[n], desired[k].id);
    }
  }

  lemma IdNotBefore(desired: seq<Instance>, n: nat)
    requires DistinctIds(desired) && n < |desired|
    ensures desired[n].id !in Ids(desired[..n])
  {
    forall inst | inst in desired[..n] ensures inst.id != desired[n].id {
      var i :| 0 <= i < n && desired[..n][i] == inst;
      assert desired[i].id != desired[n].id;
    }
  }

  // ---------------------------------------------------------------- reconcile

  /** Afterwards only desired inbounds are managed, and no process was left running unknown. */
  lemma ReconcileManagesOnlyDesired(s: State, desired: seq<Instance>, outcomes: seq<Outcome>)
    requires Valid(s) && |desired| == |outcomes|
    ensures Reconciled(s, desired, outcomes).0.procs.Keys <= Ids(desired)
    ensures Orphans(Reconciled(s, desired, outcomes).0) == Orphans(s)
  {
    var gone := s.procs.Keys - Ids(desired);
    DiscardKeeps(s, gone);
    LoopManagesOnlyDesired(StopUnwanted(s, Ids(desired)), desired, outcomes);
    assert (s.procs - gone).Keys <= Ids(desired);
  }

  lemma KeptByStop(s: State, want: set<InboundId>, id: InboundId)
    requires Valid(s) && id in want
    ensures SameFor(s, StopUnwanted(s, want), id)
  {
    DiscardTouchesNoOther(s, s.procs.Keys - want, id);
  }

  /** With distinct ids every success is a live, matching process at the end, and every other instance has none. */
  lemma ReconcileServes(s: State, desired: seq<Instance>, outcomes: seq<Outcome>, k: nat)
    requires Valid(s) && |desired| == |outcomes| && DistinctIds(desired) && k < |desired|
    ensures var (t, ok) := Reconciled(s, desired, outcomes); ok[k] <==> Serves(t, desired[k])
  {
    DiscardKeeps(s, s.procs.Keys - Ids(desired));
    var at := LoopIsIndependent(StopUnwanted(s, Ids(desired)), desired, outcomes, k);
    EnsureServes(at, desired[k], outcomes[k]);
  }

  /** With distinct ids a process whose structure is unchanged is replaced exactly when its live update failed. */
  lemma ReconcileKeepsProcesses(s: State, desired: seq<Instance>, outcomes: seq<Outcome>, k: nat)
    requires Valid(s) && |desired| == |outcomes| && DistinctIds(desired) && k < |desired|
    requires desired[k].id in s.procs && s.procs[desired[k].id].proc in s.live
    requires s.procs[desired[k].id].structuralFP == s.prints.structural(desired[k])
    ensures KeepsProc(s, Reconciled(s, desired, outcomes).0, desired[k].id) <==>
      !(s.procs[desired[k].id].secretsFP != s.prints.secrets(desired[k].secrets)
        && outcomes[k].rewritten && !outcomes[k].applied)
  {
    var want := Ids(desired);
    assert desired[k] in desired;
    DiscardKeeps(s, s.procs.Keys - want);
    KeptByStop(s, want, desired[k].id);
    var at := LoopIsIndependent(StopUnwanted(s, want), desired, outcomes, k);
    SecretsChangeKeepsProcess(at, desired[k], outcomes[k]);
  }

  // ---------------------------------------------------------------- reconciling again

  /** The desired inbounds are exactly the managed ones, and all are served. */
  predicate Settled(s: State, desired: seq<Instance>) {
    s.procs.Keys == Ids(desired) && forall inst <- desired :: Serves(s, inst)
  }

  function AllTrue(n: nat): (r: seq<bool>)
    ensures |r| == n
  {
    seq(n, _ => true)
  }

  lemma ServedIsLeftAlone(s: State, inst: Instance, o: Outcome)
    requires Valid(s) && Serves(s, inst)
    ensures Ensured(s, inst, o) == (s, true)
  {
    assert s.procs[inst.id := s.procs[inst.id].(tag := inst.tag)] == s.procs;
  }

  lemma {:induction false} LoopLeavesServedAlone(s: State, desired: seq<Instance>, outcomes: seq<Outcome>)
    requires Valid(s) && |desired| == |outcomes| && forall inst <- desired :: Serves(s, inst)
    ensures EnsuredAll(s, desired, outcomes) == (s, AllTrue(|desired|))
    decreases |desired|
  {
    if desired != [] {
      var n := |desired| - 1;
      assert desired == desired[..n] + [desired[n]];
      LoopLeavesServedAlone(s, desired[..n], outcomes[..n]);
      assert desired[n] in desired;
      ServedIsLeftAlone(s, desired[n], outcomes[n]);
      assert AllTrue(n + 1) == AllTrue(n) + [true];
    }
  }

  /** A settled manager does nothing at all, whatever the environment would answer. */
  lemma SettledIsFixed(s: State, desired: seq<Instance>, outcomes: seq<Outcome>)
    requires Valid(s) && |desired| == |outcomes| && Settled(s, desired)
    ensures Reconciled(s, desired, outcomes) == (s, AllTrue(|desired|))
  {
    assert s.procs.Keys - Ids(desired) == Ids(desired) - Ids(desired);
    DiscardNothing(s, Ids(desired));
    DiscardKeeps(s, s.procs.Keys - Ids(desired));
    LoopLeavesServedAlone(s, desired, outcomes);
  }

  /** The same instances in any order, each with its clients in any order. */
  ghost predicate Reordered(desired: seq<Instance>, again: seq<Instance>) {
    && Ids(desired) == Ids(again)
    && forall b <- again ::
      exists a <- desired :: b == a.(secrets := b.secrets) && multiset(b.secrets) == multiset(a.secrets)
  }

  lemma ReorderedIsServed(s: State, a: Instance, b: Instance)
    requires Valid(s) && s.prints == CodePrints() && Serves(s, a)
    requires b == a.(secrets := b.secrets) && multiset(b.secrets) == multiset(a.secrets)
    ensures Serves(s, b)
  {
    SecretsFingerprintForgetsOrder(a.secrets, b.secrets);
    assert s.prints.structural(a.(secrets := b.secrets)) == s.prints.structural(a);
  }

  /**
    When every instance succeeded and nothing crashed since, reconciling again with instances and
    clients listed in another order starts, stops and changes nothing.
  */
  lemma ReconcileAgain(s: State, desired: seq<Instance>, outcomes: seq<Outcome>,
                       again: seq<Instance>, outcomes': seq<Outcome>)
    requires Valid(s) && s.prints == CodePrints() && |desired| == |outcomes| && DistinctIds(desired)
    requires Reconciled(s, desired, outcomes).1 == AllTrue(|desired|)
    requires Reordered(desired, again) && |again| == |outcomes'|
    ensures var t := Reconciled(s, desired, outcomes).0; Reconciled(t, again, outcomes') == (t, AllTrue(|again|))
  {
    var t := Reconciled(s, desired, outcomes).0;
    ReconcileManagesOnlyDesired(s, desired, outcomes);
    ReconcilePrints(s, desired, outcomes);
    forall a <- desired ensures Serves(t, a) {
      var k :| 0 <= k < |desired| && desired[k] == a;
      ReconcileServes(s, desired, outcomes, k);
    }
    forall b <- again ensures Serves(t, b) {
      var a :| a in desired && b == a.(secrets := b.secrets) && multiset(b.secrets) == multiset(a.secrets);
      ReorderedIsServed(t, a, b);
    }
    SettledIsFixed(t, again, outcomes');
  }

  lemma ReconcilePrints(s: State, desired: seq<Instance>, outcomes: seq<Outcome>)
    requires Valid(s) && |desired| == |outcomes|
    ensures Reconciled(s, desired, outcomes).0.prints == s.prints
  {
    DiscardKeeps(s, s.procs.Keys - Ids(desired));
    LoopManagesOnlyDesired(StopUnwanted(s, Ids(desired)), desired, outcomes);
  }

  // ---------------------------------------------------------------- what is really served

  /** For separator-free configurations, matching fingerprints mean the process serves what is desired. */
  lemma ServedIsDesired(s: State, inst: Instance)
    requires Valid(s) && s.prints == CodePrints() && Serves(s, inst)
    requires Recorded(s, inst.id) && PlainStructure(inst) && PlainSecrets(inst.secrets)
    requires var now := s.serving[s.procs[inst.id].proc]; PlainStructure(now) && PlainSecrets(now.secrets)
    ensures var now := s.serving[s.procs[inst.id].proc];
      Structure(now) == Structure(inst) && multiset(now.secrets) == multiset(inst.secrets)
  {
    var now := s.serving[s.procs[inst.id].proc];
    StructuralFingerprintIsExact(now, inst);
    SecretsFingerprintIsExact(now.secrets, inst.secrets);
  }
}
