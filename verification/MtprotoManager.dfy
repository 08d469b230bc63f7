/**
  The set of mtg sidecar processes, one per mtproto inbound (internal/mtproto/manager.go).

  What the operating system and the sidecar answer (a port, a token, a written file, a started
  process, an accepted secret update) is a parameter, so every theorem holds for all answers.
*/
module MtprotoManager {
  import opened Wrappers
  import opened MtprotoConfig

  datatype Proc = Proc(pid: nat)

  datatype Counters = Counters(up: int, down: int)

  datatype Managed = Managed(
    proc: Proc, tag: string, structuralFP: string, secretsFP: string,
    apiPort: int, apiToken: string, last: map<string, Counters>)

  /** The answers one ensure may get, each used at most once. */
  datatype Outcome = Outcome(
    rewritten: bool,          // the config of a running process could be rewritten
    applied: bool,            // the process took the new secrets in place
    port: Option<int>, token: Option<string>,
    written: bool, started: bool)

  /** The two fingerprints. The manager only ever compares them. */
  datatype Prints = Prints(structural: Instance -> string, secrets: seq<SecretEntry> -> string)

  /** The fingerprints the code uses. */
  function CodePrints(): Prints {
    Prints(StructuralFingerprint, SecretsFingerprint)
  }

  /** The manager's map, the processes that run, what each was told to serve, and the next process id. */
  datatype State = State(
    prints: Prints, procs: map<InboundId, Managed>, live: set<Proc>, serving: map<Proc, Instance>, next: nat)

  // ---------------------------------------------------------------- one instance

  datatype Action = Noop | Reload | Restart

  /** ensureActionFor. */
  function EnsureActionFor(running: bool, curStruct: string, curSecrets: string,
                           newStruct: string, newSecrets: string): Action {
    if !running || curStruct != newStruct then Restart
    else if curSecrets != newSecrets then Reload
    else Noop
  }

  function ActionOn(s: State, inst: Instance): Action
    requires inst.id in s.procs
  {
    var cur := s.procs[inst.id];
    EnsureActionFor(cur.proc in s.live, cur.structuralFP, cur.secretsFP,
                    s.prints.structural(inst), s.prints.secrets(inst.secrets))
  }

  function ProcsOf(procs: map<InboundId, Managed>, ids: set<InboundId>): set<Proc> {
    set id | id in ids && id in procs :: procs[id].proc
  }

  /** Stops the processes of some inbounds and forgets them. */
  function Discard(s: State, gone: set<InboundId>): State {
    s.(procs := s.procs - gone, live := s.live - ProcsOf(s.procs, gone))
  }

  predicate CanLaunch(o: Outcome) {
    o.port.Some? && o.token.Some? && o.written && o.started
  }

  function Fresh(s: State, inst: Instance, o: Outcome): Managed
    requires CanLaunch(o)
  {
    Managed(Proc(s.next), inst.tag, s.prints.structural(inst), s.prints.secrets(inst.secrets),
            o.port.value, o.token.value, map[])
  }

  function Launch(s: State, inst: Instance, o: Outcome): (State, bool) {
    if !CanLaunch(o) then (s, false)
    else
      (State(s.prints, s.procs[inst.id := Fresh(s, inst, o)], s.live + {Proc(s.next)},
             s.serving[Proc(s.next) := inst], s.next + 1), true)
  }

  function Retag(s: State, inst: Instance): State
    requires inst.id in s.procs
  {
    s.(procs := s.procs[inst.id := s.procs[inst.id].(tag := inst.tag)])
  }

  /** The process goes on with new secrets; everything else it serves stays. */
  function TakeSecrets(s: State, inst: Instance): State
    requires inst.id in s.procs && s.procs[inst.id].proc in s.serving
  {
    var cur := s.procs[inst.id];
    s.(procs := s.procs[inst.id := cur.(tag := inst.tag, secretsFP := s.prints.secrets(inst.secrets))],
       serving := s.serving[cur.proc := s.serving[cur.proc].(secrets := inst.secrets)])
  }

  /** ensureLocked. */
  function Ensured(s: State, inst: Instance, o: Outcome): (State, bool)
    requires Valid(s)
  {
    if inst.id !in s.procs then Launch(s, inst, o)
    else
      match ActionOn(s, inst)
      case Noop => (Retag(s, inst), true)
      case Restart => Launch(Discard(s, {inst.id}), inst, o)
      case Reload =>
        if !o.rewritten then (s, false)
        else if o.applied then (TakeSecrets(s, inst), true)
        else Launch(Discard(s, {inst.id}), inst, o)
  }

  // ---------------------------------------------------------------- the invariant

  /** A managed process and what it serves carry the recorded fingerprints. */
  predicate Recorded(s: State, id: InboundId)
    requires id in s.procs
  {
    var m := s.procs[id];
    && m.proc.pid < s.next && m.proc in s.serving
    && m.structuralFP == s.prints.structural(s.serving[m.proc])
    && m.secretsFP == s.prints.secrets(s.serving[m.proc].secrets)
  }

  predicate OneProcEach(procs: map<InboundId, Managed>) {
    forall i, j | i in procs && j in procs && i != j :: procs[i].proc != procs[j].proc
  }

  /** Swapping secrets does not touch the structure. */
  ghost predicate Layered(prints: Prints) {
    forall inst: Instance, secrets: seq<SecretEntry> ::
      prints.structural(inst.(secrets := secrets)) == prints.structural(inst)
  }

  ghost predicate Valid(s: State) {
    && Layered(s.prints)
    && (forall id <- s.procs :: Recorded(s, id))
    && (forall p <- s.live :: p.pid < s.next)
    && OneProcEach(s.procs)
  }

  /** Running processes that the manager does not know of. */
  function Orphans(s: State): set<Proc> {
    s.live - ProcsOf(s.procs, s.procs.Keys)
  }

  lemma CodePrintsAreLayered()
    ensures Layered(CodePrints())
  {
    forall inst: Instance, secrets: seq<SecretEntry>
      ensures StructuralFingerprint(inst.(secrets := secrets)) == StructuralFingerprint(inst)
    {
      assert StructuralParts(inst.(secrets := secrets)) == StructuralParts(inst);
    }
  }

  lemma ProcsAfterDiscard(procs: map<InboundId, Managed>, gone: set<InboundId>)
    requires OneProcEach(procs)
    ensures ProcsOf(procs - gone, (procs - gone).Keys) == ProcsOf(procs, procs.Keys) - ProcsOf(procs, gone)
  {
    var rest := procs - gone;
    forall p | p in ProcsOf(procs, procs.Keys) && p !in ProcsOf(procs, gone) ensures p in ProcsOf(rest, rest.Keys) {
      var i :| i in procs && procs[i].proc == p;
      assert i !in gone;
      assert i in rest;
    }
  }

  lemma DiscardKeeps(s: State, gone: set<InboundId>)
    requires Valid(s)
    ensures Valid(Discard(s, gone)) && Orphans(Discard(s, gone)) == Orphans(s)
  {
    var t := Discard(s, gone);
    forall i <- t.procs ensures Recorded(t, i) {
      assert Recorded(s, i);
    }
    ProcsAfterDiscard(s.procs, gone);
    assert ProcsOf(s.procs, gone) <= ProcsOf(s.procs, s.procs.Keys);
  }

  lemma DiscardNothing(s: State, goal: set<InboundId>)
    ensures Discard(s, goal - goal) == s
  {
    assert s.procs - (goal - goal) == s.procs;
    assert ProcsOf(s.procs, goal - goal) == {};
  }

  lemma DiscardStep(s: State, goal: set<InboundId>, todo: set<InboundId>, id: InboundId)
    requires Valid(s) && id in todo && todo <= goal <= s.procs.Keys
    ensures id in Discard(s, goal - todo).procs
    ensures Discard(Discard(s, goal - todo), {id}) == Discard(s, goal - (todo - {id}))
  {
    var gone := goal - todo;
    assert goal - (todo - {id}) == gone + {id};
    assert s.procs - gone - {id} == s.procs - (gone + {id});
    assert ProcsOf(s.procs, gone + {id}) == ProcsOf(s.procs, gone) + {s.procs[id].proc};
    assert ProcsOf(s.procs - gone, {id}) == {s.procs[id].proc};
  }

  lemma OwnProcs(procs: map<InboundId, Managed>, id: InboundId, m: Managed)
    requires id !in procs
    ensures ProcsOf(procs[id := m], procs[id := m].Keys) == ProcsOf(procs, procs.Keys) + {m.proc}
  {
    var more := procs[id := m];
    forall p | p in ProcsOf(procs, procs.Keys) + {m.proc} ensures p in ProcsOf(more, more.Keys) {
      if p == m.proc {
        assert more[id].proc == p;
      } else {
        var i :| i in procs && procs[i].proc == p;
        assert more[i].proc == p;
      }
    }
  }

  lemma LaunchKeeps(s: State, inst: Instance, o: Outcome)
    requires Valid(s) && inst.id !in s.procs
    ensures Valid(Launch(s, inst, o).0) && Orphans(Launch(s, inst, o).0) == Orphans(s)
  {
    if CanLaunch(o) {
      var t := Launch(s, inst, o).0;
      forall i <- t.procs ensures Recorded(t, i) {
        if i != inst.id {
          assert Recorded(s, i);
        }
      }
      forall i <- s.procs ensures s.procs[i].proc.pid < s.next {
        assert Recorded(s, i);
      }
      OwnProcs(s.procs, inst.id, Fresh(s, inst, o));
    }
  }

  lemma TakeSecretsKeeps(s: State, inst: Instance)
    requires Valid(s) && inst.id in s.procs
    ensures Recorded(s, inst.id)
    ensures Valid(TakeSecrets(s, inst)) && Orphans(TakeSecrets(s, inst)) == Orphans(s)
  {
    var t := TakeSecrets(s, inst);
    forall i <- t.procs ensures Recorded(t, i) {
      assert Recorded(s, i);
    }
    SameProcs(s.procs, t.procs);
  }

  lemma RetagKeeps(s: State, inst: Instance)
    requires Valid(s) && inst.id in s.procs
    ensures Valid(Retag(s, inst)) && Orphans(Retag(s, inst)) == Orphans(s)
  {
    var t := Retag(s, inst);
    forall i <- t.procs ensures Recorded(t, i) {
      assert Recorded(s, i);
    }
    SameProcs(s.procs, t.procs);
  }

  lemma SameProcs(a: map<InboundId, Managed>, b: map<InboundId, Managed>)
    requires a.Keys == b.Keys && forall id <- a :: a[id].proc == b[id].proc
    ensures ProcsOf(a, a.Keys) == ProcsOf(b, b.Keys) && (OneProcEach(a) ==> OneProcEach(b))
  {
  }

  /** Ensuring keeps the invariant and leaks no process. */
  lemma EnsureKeeps(s: State, inst: Instance, o: Outcome)
    requires Valid(s)
    ensures Valid(Ensured(s, inst, o).0) && Orphans(Ensured(s, inst, o).0) == Orphans(s)
  {
    if inst.id in s.procs {
      TakeSecretsKeeps(s, inst);
      RetagKeeps(s, inst);
      DiscardKeeps(s, {inst.id});
      LaunchKeeps(Discard(s, {inst.id}), inst, o);
    } else {
      LaunchKeeps(s, inst, o);
    }
  }

  // ---------------------------------------------------------------- all instances

  function Ids(desired: seq<Instance>): set<InboundId> {
    set inst | inst in desired :: inst.id
  }

  /** Stops what is not wanted. */
  function StopUnwanted(s: State, want: set<InboundId>): State {
    Discard(s, s.procs.Keys - want)
  }

  /** The ensure loop; each instance has its own answers. */
  function EnsuredAll(s: State, desired: seq<Instance>, outcomes: seq<Outcome>): (r: (State, seq<bool>))
    requires Valid(s) && |desired| == |outcomes|
    ensures Valid(r.0) && |r.1| == |desired|
    decreases |desired|
  {
    if desired == [] then (s, [])
    else
      var n := |desired| - 1;
      var front := EnsuredAll(s, desired[..n], outcomes[..n]);
      EnsureKeeps(front.0, desired[n], outcomes[n]);
      var last := Ensured(front.0, desired[n], outcomes[n]);
      (last.0, front.1 + [last.1])
  }

  /** Reconcile. */
  function Reconciled(s: State, desired: seq<Instance>, outcomes: seq<Outcome>): (r: (State, seq<bool>))
    requires Valid(s) && |desired| == |outcomes|
    ensures Valid(r.0) && |r.1| == |desired|
  {
    DiscardKeeps(s, s.procs.Keys - Ids(desired));
    EnsuredAll(StopUnwanted(s, Ids(desired)), desired, outcomes)
  }

  // ---------------------------------------------------------------- collecting traffic

  datatype Snap = Snap(tag: string, apiPort: int, apiToken: string, last: map<string, Counters>)

  function SnapsOf(s: State): map<InboundId, Snap> {
    map id | id in s.procs && s.procs[id].proc in s.live ::
      Snap(s.procs[id].tag, s.procs[id].apiPort, s.procs[id].apiToken, s.procs[id].last)
  }

  function Written(s: State, id: InboundId, newLast: map<string, Counters>): State {
    if id in s.procs then s.(procs := s.procs[id := s.procs[id].(last := newLast)]) else s
  }

  lemma WriteBackKeeps(s: State, id: InboundId, newLast: map<string, Counters>)
    requires Valid(s)
    ensures Valid(Written(s, id, newLast)) && Orphans(Written(s, id, newLast)) == Orphans(s)
  {
    var t := Written(s, id, newLast);
    forall i <- t.procs ensures Recorded(t, i) {
      assert Recorded(s, i);
    }
    SameProcs(s.procs, t.procs);
  }

  // ---------------------------------------------------------------- the manager

  class Manager {
    const prints: Prints
    var procs: map<InboundId, Managed>
    var live: set<Proc>
    var next: nat
    ghost var serving: map<Proc, Instance>

    ghost function Model(): State
      reads this
    {
      State(prints, procs, live, serving, next)
    }

    constructor ()
      ensures Model() == State(CodePrints(), map[], {}, map[], 0) && Valid(Model())
    {
      CodePrintsAreLayered();
      prints := CodePrints();
      procs, live, serving, next := map[], {}, map[], 0;
    }

    /** Stops the process of an inbound and forgets it. */
    method Stop(id: InboundId)
      requires id in procs
      modifies this
      ensures Model() == Discard(old(Model()), {id})
    {
      assert ProcsOf(procs, {id}) == {procs[id].proc};
      live := live - {procs[id].proc};
      procs := procs - {id};
    }

    method Start(inst: Instance, o: Outcome) returns (ok: bool)
      modifies this
      ensures (Model(), ok) == Launch(old(Model()), inst, o)
    {
      if o.port.None? {
        return false;
      }
      if o.token.None? {
        return false;
      }
      if !o.written {
        return false;
      }
      if !o.started {
        return false;
      }
      var proc := Proc(next);
      next := next + 1;
      live := live + {proc};
      serving := serving[proc := inst];
      procs := procs[inst.id := Managed(proc, inst.tag, prints.structural(inst), prints.secrets(inst.secrets),
                                        o.port.value, o.token.value, map[])];
      ok := true;
    }

    /** ensureLocked: nothing, an in-place secret update, or a (re)start. */
    method EnsureLocked(inst: Instance, o: Outcome) returns (ok: bool)
      requires Valid(Model())
      modifies this
      ensures (Model(), ok) == Ensured(old(Model()), inst, o)
      ensures Valid(Model()) && Orphans(Model()) == old(Orphans(Model()))
    {
      EnsureKeeps(Model(), inst, o);
      if inst.id in procs {
        var cur := procs[inst.id];
        assert Recorded(Model(), inst.id);
        var secretsFP := prints.secrets(inst.secrets);
        var action := EnsureActionFor(cur.proc in live, cur.structuralFP, cur.secretsFP,
                                      prints.structural(inst), secretsFP);
        if action.Noop? {
          procs := procs[inst.id := cur.(tag := inst.tag)];
          return true;
        }
        if action.Reload? {
          if !o.rewritten {
            return false;
          }
          if o.applied {
            procs := procs[inst.id := cur.(tag := inst.tag, secretsFP := secretsFP)];
            serving := serving[cur.proc := serving[cur.proc].(secrets := inst.secrets)];
            return true;
          }
        }
        Stop(inst.id);
      }
      ok := Start(inst, o);
    }

    /** Stops every managed process whose inbound is not wanted, in whatever order the map yields them. */
    method StopUnwantedProcs(want: set<InboundId>)
      requires Valid(Model())
      modifies this
      ensures Model() == StopUnwanted(old(Model()), want)
    {
      ghost var before := Model();
      ghost var goal := procs.Keys - want;
      var todo := procs.Keys - want;
      DiscardNothing(before, goal);
      while todo != {}
        invariant todo <= goal
        invariant Model() == Discard(before, goal - todo)
        decreases |todo|
      {
        var id :| id in todo;
        DiscardStep(before, goal, todo, id);
        Stop(id);
        todo := todo - {id};
      }
      assert goal - todo == goal;
    }

    /** Reconcile. `errors` are the instances it could only log a warning for. */
    method Reconcile(desired: seq<Instance>, outcomes: seq<Outcome>) returns (errors: seq<bool>)
      requires Valid(Model()) && |outcomes| == |desired|
      modifies this
      ensures Model() == Reconciled(old(Model()), desired, outcomes).0
      ensures errors == Reconciled(old(Model()), desired, outcomes).1
    {
      var want: set<InboundId> := {};
      for i := 0 to |desired|
        invariant want == Ids(desired[..i])
      {
        assert desired[..i + 1] == desired[..i] + [desired[i]];
        want := want + {desired[i].id};
      }
      assert desired[..|desired|] == desired && outcomes[..|desired|] == outcomes;
      DiscardKeeps(Model(), procs.Keys - want);
      StopUnwantedProcs(want);
      ghost var start := Model();
      errors := [];
      for i := 0 to |desired|
        invariant (Model(), errors) == EnsuredAll(start, desired[..i], outcomes[..i])
      {
        assert desired[..i + 1][..i] == desired[..i] && outcomes[..i + 1][..i] == outcomes[..i];
        var ok := EnsureLocked(desired[i], outcomes[i]);
        errors := errors + [ok];
      }
    }

    /** Remove. */
    method Remove(id: InboundId)
      requires Valid(Model())
      modifies this
      ensures Model() == Discard(old(Model()), {id})
      ensures Valid(Model()) && Orphans(Model()) == old(Orphans(Model()))
    {
      DiscardKeeps(Model(), {id});
      if id in procs {
        Stop(id);
      } else {
        assert procs - {id} == procs;
      }
    }

    /** The first part of CollectTraffic: what is needed to scrape each running process. */
    method Snapshots() returns (snaps: map<InboundId, Snap>)
      ensures snaps == SnapsOf(Model())
    {
      snaps := map id | id in procs && procs[id].proc in live ::
        Snap(procs[id].tag, procs[id].apiPort, procs[id].apiToken, procs[id].last);
    }

    /** The last part, for one scraped process; by now another one may be managed under the id. */
    method WriteBack(id: InboundId, newLast: map<string, Counters>)
      requires Valid(Model())
      modifies this
      ensures Model() == Written(old(Model()), id, newLast)
      ensures Valid(Model()) && Orphans(Model()) == old(Orphans(Model()))
    {
      WriteBackKeeps(Model(), id, newLast);
      if id in procs {
        procs := procs[id := procs[id].(last := newLast)];
      }
    }

    /** StopAll leaves nothing managed, and nothing running that it started. */
    method StopAll()
      requires Valid(Model())
      modifies this
      ensures procs == map[] && live == old(Orphans(Model()))
      ensures Valid(Model())
    {
      DiscardKeeps(Model(), procs.Keys - {});
      StopUnwantedProcs({});
      assert procs == map[];
    }
  }
}
