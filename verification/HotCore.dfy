/**
  A core process and the configuration the panel believes it runs (tryHotApply and restartXray in
  internal/web/service/xray.go), over calls that fail, edits behind the recorded configuration, and stops
  and starts that fail.
*/
module HotCore {
  import opened Wrappers
  import opened HotConfig
  import opened HotDiff
  import opened HotApply
  import opened HotCorrect
  import opened HotDrift
  import opened HotPartial
  import opened HotReference

  function Steps(lib: Library, rt: Runtime, ops: Ops): nat -> Option<Runtime> {
    (k: nat) => SoftExecute(lib, rt, FirstOps(ops, k))
  }

  /** The longest of the first `n` steps that succeed, none of them if need be. */
  function Longest(steps: nat -> Option<Runtime>, n: nat): (k: nat)
    ensures k <= n && (k > 0 ==> steps(k).Some?)
  {
    if n == 0 || steps(n).Some? then n else Longest(steps, n - 1)
  }

  /** How many of the first `n` operations succeed. */
  function Reach(lib: Library, rt: Runtime, ops: Ops, n: nat): (k: nat)
    ensures k <= n && SoftExecute(lib, rt, FirstOps(ops, k)).Some?
  {
    assert FirstOps(ops, 0) == NOTHING;
    Longest(Steps(lib, rt, ops), n)
  }

  /** The operations that take effect: up to the first the core refuses, and no more than `breaks`. */
  function Effective(lib: Library, rt: Runtime, ops: Ops, breaks: Option<nat>): nat {
    Reach(lib, rt, ops, if breaks.Some? && breaks.value < Size(ops) then breaks.value else Size(ops))
  }

  /** Running a plan on a core: whether all of it succeeds, and what it leaves. */
  ghost predicate Ran(lib: Library, ops: Ops, breaks: Option<nat>, rt: Runtime, ok: bool, rt': Runtime) {
    var k := Effective(lib, rt, ops, breaks);
    SoftExecute(lib, rt, FirstOps(ops, k)) == Some(rt') && (ok <==> breaks.None? && k == Size(ops))
  }

  /** Bringing a core from one configuration to another without a restart. */
  ghost predicate Applied(lib: Library, o: Config, n: Config, sharedPorts: bool, connected: bool, breaks: Option<nat>,
                          rt: Runtime, ok: bool, rt': Runtime) {
    if sharedPorts || !Applicable(lib, o, n) then !ok && rt' == rt
    else if IsHotDiff(lib, o, n, NOTHING) then ok && rt' == rt
    else if !connected then !ok && rt' == rt
    else exists ops :: IsHotDiff(lib, o, n, ops) && Ran(lib, ops, breaks, rt, ok, rt')
  }

  /** Whatever was done to the core was done where every plan from `o` to `n` points. */
  ghost predicate Repairable(lib: Library, o: Config, n: Config, rt: Runtime) {
    Applicable(lib, o, n) && forall ops | IsHotDiff(lib, o, n, ops) :: DriftedOnly(lib, o, ops, rt)
  }

  /** A plan succeeds on such a core unless a call fails, and then it leaves the new configuration. */
  lemma RanRepairs(lib: Library, o: Config, n: Config, ops: Ops, breaks: Option<nat>, rt: Runtime, ok: bool,
                   rt': Runtime)
    requires Applicable(lib, o, n) && IsHotDiff(lib, o, n, ops) && DriftedOnly(lib, o, ops, rt)
    requires Ran(lib, ops, breaks, rt, ok, rt')
    ensures ok <==> breaks.None?
    ensures ok ==> rt' == StateOf(lib, n)
  {
    BrokenOffPlan(lib, o, n, ops, rt, Size(ops));
    AllOfIt(ops, Size(ops));
  }

  lemma NothingMeansInStep(lib: Library, o: Config, n: Config, rt: Runtime)
    requires Applicable(lib, o, n) && IsHotDiff(lib, o, n, NOTHING) && DriftedOnly(lib, o, NOTHING, rt)
    ensures rt == StateOf(lib, n)
  {
    DriftIsRepairedIff(lib, o, n, NOTHING, rt);
    assert SoftExecute(lib, rt, NOTHING) == Some(rt);
  }

  /** On a core that can be repaired, a hot apply works whenever it may, and leaves the new configuration. */
  lemma AppliedRepairs(lib: Library, o: Config, n: Config, connected: bool, breaks: Option<nat>,
                       rt: Runtime, ok: bool, rt': Runtime)
    requires Repairable(lib, o, n, rt) && Applied(lib, o, n, false, connected, breaks, rt, ok, rt')
    ensures ok <==> IsHotDiff(lib, o, n, NOTHING) || (connected && breaks.None?)
    ensures ok ==> rt' == StateOf(lib, n)
  {
    if IsHotDiff(lib, o, n, NOTHING) {
      NothingMeansInStep(lib, o, n, rt);
    } else if connected {
      var ops :| IsHotDiff(lib, o, n, ops) && Ran(lib, ops, breaks, rt, ok, rt');
      RanRepairs(lib, o, n, ops, breaks, rt, ok, rt');
    }
  }

  lemma {:induction false} FirstOfFirst(ops: Ops, n: nat, k: nat)
    requires k <= n
    ensures FirstOps(FirstOps(ops, n), k) == FirstOps(ops, k)
  {
  }

  /** The operations that succeed end at the first refusal: any shorter part of a plan succeeds, no longer one does. */
  lemma ReachIsFirstRefusal(lib: Library, rt: Runtime, ops: Ops, n: nat, k: nat)
    requires k <= n
    ensures SoftExecute(lib, rt, FirstOps(ops, k)).Some? <==> k <= Reach(lib, rt, ops, n)
  {
    var r := Reach(lib, rt, ops, n);
    if k <= r {
      SoftFirstOpsRun(lib, rt, FirstOps(ops, r), k);
      FirstOfFirst(ops, r, k);
    } else {
      AboveLongest(Steps(lib, rt, ops), n, k);
      assert Steps(lib, rt, ops)(k).None?;
    }
  }

  lemma {:induction false} AboveLongest(steps: nat -> Option<Runtime>, n: nat, k: nat)
    requires Longest(steps, n) < k <= n
    ensures steps(k).None?
  {
    if k < n {
      AboveLongest(steps, n - 1, k);
    }
  }

  /** Nothing differs that an operation could change. */
  ghost predicate NothingToDo(lib: Library, o: Config, n: Config) {
    PlanOf(lib, o, n, NOTHING)
  }

  /** The core has every inbound that is given a client, and a router if routing changes. */
  ghost predicate HasWhatItTakes(lib: Library, o: Config, n: Config, rt: Runtime) {
    && (forall op | SomePutsIn(lib, o, n, op) :: op.tag in rt.inbounds)
    && (o.routing != n.routing ==> rt.routing.Routing?)
  }

  /** When a hot apply succeeds, told from the configurations, the core and the calls. */
  ghost predicate CanApply(lib: Library, o: Config, n: Config, sharedPorts: bool, connected: bool, breaks: Option<nat>,
                           rt: Runtime) {
    && !sharedPorts && ChangeFits(lib, o, n)
    && (NothingToDo(lib, o, n) || (connected && breaks.None? && HasWhatItTakes(lib, o, n, rt)))
  }

  lemma TakesIff(lib: Library, o: Config, n: Config, ops: Ops, rt: Runtime)
    requires PlanOf(lib, o, n, ops)
    ensures Takes(rt, ops) <==> HasWhatItTakes(lib, o, n, rt)
  {
  }

  lemma RanSucceedsIff(lib: Library, ops: Ops, breaks: Option<nat>, rt: Runtime, ok: bool, rt': Runtime)
    requires Ran(lib, ops, breaks, rt, ok, rt')
    ensures ok <==> breaks.None? && SoftExecute(lib, rt, ops).Some?
  {
    AllOfIt(ops, Size(ops));
    ReachIsFirstRefusal(lib, rt, ops, Size(ops), Size(ops));
  }

  /** Exactly when a hot apply succeeds, on any core. */
  lemma AppliedIff(lib: Library, o: Config, n: Config, sharedPorts: bool, connected: bool, breaks: Option<nat>,
                   rt: Runtime, ok: bool, rt': Runtime)
    requires Applied(lib, o, n, sharedPorts, connected, breaks, rt, ok, rt')
    ensures ok <==> CanApply(lib, o, n, sharedPorts, connected, breaks, rt)
  {
    ApplicableIff(lib, o, n);
    if !sharedPorts && Applicable(lib, o, n) {
      PlanIff(lib, o, n, NOTHING);
      if !NothingToDo(lib, o, n) && connected {
        var ops :| IsHotDiff(lib, o, n, ops) && Ran(lib, ops, breaks, rt, ok, rt');
        RanSucceedsIff(lib, ops, breaks, rt, ok, rt');
        SucceedsIff(lib, o, n, ops, rt);
        PlanIff(lib, o, n, ops);
        TakesIff(lib, o, n, ops, rt);
      }
    }
  }

  /** A core in step can be repaired. */
  lemma InStepIsRepairable(lib: Library, o: Config, n: Config)
    requires Applicable(lib, o, n)
    ensures Repairable(lib, o, n, StateOf(lib, o))
  {
    forall ops | IsHotDiff(lib, o, n, ops) ensures DriftedOnly(lib, o, ops, StateOf(lib, o)) {
      InStepIsDriftedOnly(lib, o, ops);
    }
  }

  /** So does one on a core in step. */
  lemma AppliedKeepsStep(lib: Library, o: Config, n: Config, sharedPorts: bool, connected: bool, breaks: Option<nat>,
                         rt: Runtime, rt': Runtime)
    requires InStep(lib, o, rt) && Applied(lib, o, n, sharedPorts, connected, breaks, rt, true, rt')
    ensures InStep(lib, n, rt')
  {
    InStepIsRepairable(lib, o, n);
    AppliedRepairs(lib, o, n, connected, breaks, rt, true, rt');
  }

  /** The core is like one freshly started on the configuration. */
  ghost predicate InStep(lib: Library, c: Config, rt: Runtime) {
    Addressable(lib, c) ==> rt == StateOf(lib, c)
  }

  /** What a restart is asked for: its flags, the shared-port plans, and the calls of a hot apply. */
  datatype Request = Request(
    force: bool, honorPending: bool, pending: bool, samePorts: bool, sharedPorts: bool, connected: bool,
      breaks: Option<nat>)

  /** What the operating system makes of it. */
  datatype Fate = Fate(stops: bool, survives: bool, starts: bool, lingers: bool, restores: bool)

  ghost predicate HotApplied(lib: Library, o: Config, n: Config, req: Request, rt: Runtime, ok: bool, rt': Runtime) {
    Applied(lib, o, n, req.sharedPorts, req.connected, req.breaks, rt, ok, rt')
  }

  datatype Outcome = Kept | Hot | Survived | Recovered | Replaced | Lingering | Restored | Down

  /** The configuration and the core a restart leaves, by its outcome; `boot` is what a new process comes up with. */
  ghost predicate Restarted(lib: Library, boot: Config -> Runtime, o: Config, n: Config, req: Request, rt: Runtime,
                            how: Outcome, c: Config, rt': Runtime) {
    match how
    case Kept => c == o == n && rt' == rt
    case Hot => c == n && !req.force && HotApplied(lib, o, n, req, rt, true, rt')
    case Survived => c == o && (rt' == rt || (!req.force && HotApplied(lib, o, n, req, rt, false, rt')))
    case Recovered => c == o && rt' == boot(o)
    case Replaced => c == n && rt' == boot(n)
    case Lingering => c == n && rt' == boot(n)
    case Restored => c == o && rt' == boot(o)
    case Down => true
  }

  class Core {
    var running: bool
    var config: Config
    var runtime: Runtime

    /** Starts the core; `booted` is the state the new process comes up with. */
    constructor (config: Config, booted: Runtime)
      ensures running && this.config == config && runtime == booted
    {
      this.running, this.config, this.runtime := true, config, booted;
    }

    /**
      Hot-applies a configuration, or asks for a restart. `breaks` is the number of operations that
      take effect when a call fails, the failing one possibly among them.
    */
    method TryHotApply(lib: Library, next: Config, sharedPorts: bool, connected: bool, breaks: Option<nat>)
      returns (ok: bool)
      modifies this
      ensures Applied(lib, old(config), next, sharedPorts, connected, breaks, old(runtime), ok, runtime)
      ensures ok <==> CanApply(lib, old(config), next, sharedPorts, connected, breaks, old(runtime))
      ensures config == (if ok then next else old(config)) && running == old(running)
    {
      ok := HotApply(lib, next, sharedPorts, connected, breaks);
      AppliedIff(lib, old(config), next, sharedPorts, connected, breaks, old(runtime), ok, runtime);
    }

    method HotApply(lib: Library, next: Config, sharedPorts: bool, connected: bool, breaks: Option<nat>)
      returns (ok: bool)
      modifies this
      ensures Applied(lib, old(config), next, sharedPorts, connected, breaks, old(runtime), ok, runtime)
      ensures config == (if ok then next else old(config)) && running == old(running)
    {
      if sharedPorts {
        return false;
      }
      var diff := ComputeHotDiff(lib, Some(config), Some(next));
      if diff.None? {
        return false;
      }
      var ops := diff.value.View();
      var empty := diff.value.Empty();
      if empty {
        config := next;
        return true;
      }
      if IsHotDiff(lib, config, next, NOTHING) {
        EmptyPlanIsUnique(lib, config, next, ops);
      }
      if !connected {
        return false;
      }
      ok := ApplyPlan(lib, ops, breaks);
      config := if ok then next else config;
    }

    /** The calls of a hot apply, one after another until one fails. */
    method ApplyPlan(lib: Library, ops: Ops, breaks: Option<nat>) returns (ok: bool)
      modifies this`runtime
      ensures Ran(lib, ops, breaks, old(runtime), ok, runtime)
    {
      var k := Effective(lib, runtime, ops, breaks);
      runtime := SoftExecute(lib, runtime, FirstOps(ops, k)).value;
      ok := breaks.None? && k == Size(ops);
    }

    /**
      restartXray: keeps, hot-applies or replaces the core, or falls back on the previous configuration; which,
      is told from what was asked, the core, and what becomes of stops and starts.
    */
    method Restart(lib: Library, next: Config, req: Request, fate: Fate, boot: Config -> Runtime)
      returns (how: Outcome)
      modifies this
      ensures Restarted(lib, boot, old(config), next, req, old(runtime), how, config, runtime)
      ensures running <==> !how.Down?
      ensures
        var unasked := old(running) && !req.force;
        var same := old(config) == next && req.samePorts;
        var kept := unasked && same && !(req.honorPending && req.pending);
        var hot := unasked && !same
                   && CanApply(lib, old(config), next, req.sharedPorts, req.connected, req.breaks, old(runtime));
        var stuck := !kept && !hot && old(running) && !fate.stops;
        var free := !kept && !hot && !stuck;
        && (how.Kept? <==> kept) && (how.Hot? <==> hot)
        && (how.Survived? <==> stuck && fate.survives)
        && (how.Recovered? <==> stuck && !fate.survives && fate.restores)
        && (how.Replaced? <==> free && fate.starts)
        && (how.Lingering? <==> free && !fate.starts && fate.lingers)
        && (how.Restored? <==> free && !fate.starts && !fate.lingers && old(running) && fate.restores)
        && (how.Down? <==> (stuck && !fate.survives && !fate.restores)
                           || (free && !fate.starts && !fate.lingers && !(old(running) && fate.restores)))
    {
      if running {
        var same := config == next && req.samePorts;
        if !req.force && same && (!req.honorPending || !req.pending) {
          return Kept;
        }
        if !req.force && !same && !req.sharedPorts {
          var hot := TryHotApply(lib, next, req.sharedPorts, req.connected, req.breaks);
          if hot {
            return Hot;
          }
        }
        if !fate.stops {
          how := Recover(fate, boot);
          return;
        }
      }
      how := Replace(next, fate, boot);
    }

    /** Starts the new configuration, or else the previous one if it ran. */
    method Replace(next: Config, fate: Fate, boot: Config -> Runtime) returns (how: Outcome)
      modifies this
      ensures how == if fate.starts then Replaced else if fate.lingers then Lingering
                     else if old(running) && fate.restores then Restored else Down
      ensures running <==> !how.Down?
      ensures how.Replaced? || how.Lingering? ==> config == next && runtime == boot(next)
      ensures how.Restored? ==> config == old(config) && runtime == boot(config)
    {
      if fate.starts || fate.lingers {
        running, config, runtime := true, next, boot(next);
        return if fate.starts then Replaced else Lingering;
      }
      if running && fate.restores {
        runtime := boot(config);
        return Restored;
      }
      running := false;
      return Down;
    }

    /** recoverPreviousXrayRuntime: keeps the old process if it lives, or starts the old configuration again. */
    method Recover(fate: Fate, boot: Config -> Runtime) returns (how: Outcome)
      modifies this
      ensures config == old(config)
      ensures how == if fate.survives then Survived else if fate.restores then Recovered else Down
      ensures running == if how.Survived? then old(running) else how.Recovered?
      ensures runtime == if how.Recovered? then boot(config) else old(runtime)
    {
      if fate.survives {
        return Survived;
      }
      running := fate.restores;
      if !fate.restores {
        return Down;
      }
      runtime := boot(config);
      return Recovered;
    }
  }

  /**
    Over a restart a core in step stays so, unless it survives a failing stop with a plan half applied; one
    that was edited where the plan points comes into step, unless it survives or is kept as it is.
  */
  lemma RestartsStayInStep(lib: Library, boot: Config -> Runtime, o: Config, n: Config, req: Request, rt: Runtime,
                           how: Outcome, c: Config, rt': Runtime)
    requires forall x | Addressable(lib, x) :: boot(x) == StateOf(lib, x)
    requires Restarted(lib, boot, o, n, req, rt, how, c, rt') && !how.Down?
    ensures InStep(lib, o, rt) && (how.Survived? ==> rt' == rt) ==> InStep(lib, c, rt')
    ensures Repairable(lib, o, n, rt) && !how.Survived? && !how.Kept? ==> InStep(lib, c, rt')
  {
    if how.Hot? {
      if Repairable(lib, o, n, rt) {
        AppliedRepairs(lib, o, n, req.connected, req.breaks, rt, true, rt');
      }
      if InStep(lib, o, rt) {
        AppliedKeepsStep(lib, o, n, req.sharedPorts, req.connected, req.breaks, rt, rt');
      }
    }
  }

  /** A hot apply that breaks off after removing a user leaves a core out of step, should it survive. */
  lemma SurvivorIsOutOfStep(lib: Library, o: Config, n: Config, ops: Ops)
    requires Applicable(lib, o, n) && IsHotDiff(lib, o, n, ops) && ops.removedUsers != []
    ensures exists rt' :: Ran(lib, ops, Some(1), StateOf(lib, o), false, rt') && !InStep(lib, o, rt')
  {
    RemovedUserWasThere(lib, o, n, ops, ops.removedUsers[0]);
    var rt' := OneRemoved(lib, StateOf(lib, o), ops);
    assert !InStep(lib, o, rt');
  }

  lemma OneRemoved(lib: Library, rt: Runtime, ops: Ops) returns (rt': Runtime)
    requires ops.removedUsers != [] && (ops.removedUsers[0].tag, ops.removedUsers[0].email) in rt.users
    ensures Ran(lib, ops, Some(1), rt, false, rt') && rt' != rt
  {
    var key := (ops.removedUsers[0].tag, ops.removedUsers[0].email);
    rt' := rt.(users := rt.users - {key});
    FirstIsARemoval(lib, rt, ops);
    assert key !in rt'.users;
  }

  lemma FirstIsARemoval(lib: Library, rt: Runtime, ops: Ops)
    requires ops.removedUsers != []
    ensures SoftExecute(lib, rt, FirstOps(ops, 1))
         == Some(rt.(users := rt.users - {(ops.removedUsers[0].tag, ops.removedUsers[0].email)}))
  {
    var first := FirstOps(ops, 1);
    assert first == NOTHING.(removedUsers := [ops.removedUsers[0]]);
    RemovesOne(lib, rt, ops.removedUsers[0]);
  }

  lemma RemovesOne(lib: Library, rt: Runtime, op: UserOp)
    ensures SoftExecute(lib, rt, NOTHING.(removedUsers := [op])) == Some(rt.(users := rt.users - {(op.tag, op.email)}))
  {
    var r := rt.(users := rt.users - {(op.tag, op.email)});
    assert [op][1..] == [];
    assert SoftRemoveUsers(rt, [op]) == SoftRemoveUsers(r, []) == r;
    assert SoftRemove(rt, NOTHING.(removedUsers := [op])) == r;
  }

  lemma RemovedUserWasThere(lib: Library, o: Config, n: Config, ops: Ops, op: UserOp)
    requires Applicable(lib, o, n) && IsHotDiff(lib, o, n, ops) && op in ops.removedUsers
    ensures (op.tag, op.email) in StateOf(lib, o).users
  {
    PlanIsPlanned(lib, o, n, ops);
    RemovalsEnabled(lib, InboundsOf(lib, o, n), ops);
    StateParts(lib, o);
  }
}
