/**
  Whole runs of the sidecar manager with its collections of traffic (internal/mtproto/manager.go).

  A world holds the manager, the counters inside every process it ever started, what every client
  really moved, how far a collection has come, and the records it returned. Every run of a world is,
  for each client, a run of that client's ledger; so the records never add up to more than was moved.
*/
module MtprotoRuns {
  import opened Wrappers
  import opened Sequences
  import opened MtprotoConfig
  import opened MtprotoManager
  import opened MtprotoReconcile
  import opened MtprotoTraffic

  /** The records of one scrape and the inbound whose process gave them. */
  datatype Harvest = Harvest(id: InboundId, records: seq<Traffic>)

  /** `copies` are the snapshots a collection has not finished with; `stats` is the one just scraped. */
  datatype World = World(
    s: State, counters: map<(Proc, string), Counters>, moved: map<(InboundId, string), Counters>,
    copies: map<InboundId, Snap>, stats: Option<(InboundId, map<string, StatsUser>)>, log: seq<Harvest>)

  datatype Action =
    | Reconciling(desired: seq<Instance>, outcomes: seq<Outcome>)
    | Removing(id: InboundId)
    | Crashing(proc: Proc)
    | Transferring(id: InboundId, email: string, up: nat, down: nat)
    | Restarting(id: InboundId, email: string)          // the counters of one client start over
    | Copying                                           // a collection begins
    | Failing(id: InboundId)                            // a scrape gets no answer
    | Answering(id: InboundId, users: map<string, StatsUser>, out: seq<Traffic>)
    | Storing                                           // the new baselines are written back

  function CountersAt(w: World, proc: Proc, email: string): Counters {
    if (proc, email) in w.counters then w.counters[(proc, email)] else ZERO
  }

  function MovedBy(w: World, id: InboundId, email: string): Counters {
    if (id, email) in w.moved then w.moved[(id, email)] else ZERO
  }

  predicate Runs(w: World, id: InboundId) {
    id in w.s.procs && w.s.procs[id].proc in w.s.live
  }

  predicate TrueCounters(w: World, proc: Proc, users: map<string, StatsUser>) {
    forall email <- users :: CountersOf(users[email]) == CountersAt(w, proc, email)
  }

  /** What the action may meet; `Answering` lists true counters, and the loop's records of them, in any order. */
  predicate Enabled(w: World, a: Action) {
    match a
    case Reconciling(desired, outcomes) => |desired| == |outcomes|
    case Removing(_) => true
    case Crashing(_) => true
    case Transferring(id, _, _, _) => Runs(w, id)
    case Restarting(id, _) => Runs(w, id)
    case Copying => w.copies == map[] && w.stats.None?
    case Failing(id) => w.stats.None? && id in w.copies
    case Answering(id, users, out) =>
      && w.stats.None? && id in w.copies && Runs(w, id)
      && TrueCounters(w, w.s.procs[id].proc, users)
      && Distinct(out) && Elems(out) == Reported(w.copies[id].tag, users, w.copies[id].last)
    case Storing => w.stats.Some?
  }

  function Do(w: World, a: Action): World
    requires Valid(w.s) && Enabled(w, a)
  {
    match a
    case Reconciling(desired, outcomes) => w.(s := Reconciled(w.s, desired, outcomes).0)
    case Removing(id) => w.(s := Discard(w.s, {id}))
    case Crashing(proc) => w.(s := w.s.(live := w.s.live - {proc}))
    case Transferring(id, email, up, down) =>
      var p := w.s.procs[id].proc;
      w.(counters := w.counters[(p, email) := Plus(CountersAt(w, p, email), Counters(up, down))],
         moved := w.moved[(id, email) := Plus(MovedBy(w, id, email), Counters(up, down))])
    case Restarting(id, email) => w.(counters := w.counters[(w.s.procs[id].proc, email) := ZERO])
    case Copying => w.(copies := SnapsOf(w.s))
    case Failing(id) => w.(copies := w.copies - {id})
    case Answering(id, users, out) => w.(stats := Some((id, users)), log := w.log + [Harvest(id, out)])
    case Storing =>
      var (id, users) := w.stats.value;
      w.(s := Written(w.s, id, Baselines(users)), copies := w.copies - {id}, stats := None)
  }

  /** Only processes that exist have counters. */
  ghost predicate Wf(w: World) {
    Valid(w.s) && forall k <- w.counters :: k.0.pid < w.s.next
  }

  const EMPTY_WORLD := World(State(CodePrints(), map[], {}, map[], 0), map[], map[], map[], None, [])

  // ---------------------------------------------------------------- what the records add up to

  /** The sum of one client's records. */
  function Amount(records: seq<Traffic>, email: string): Counters {
    if records == [] then ZERO
    else
      var t := records[|records| - 1];
      var front := Amount(records[..|records| - 1], email);
      if t.email == email then Plus(front, Counters(t.up, t.down)) else front
  }

  /** The sum of all records of one client of one inbound. */
  function Credited(log: seq<Harvest>, id: InboundId, email: string): Counters {
    if log == [] then ZERO
    else
      var h := log[|log| - 1];
      var front := Credited(log[..|log| - 1], id, email);
      if h.id == id then Plus(front, Amount(h.records, email)) else front
  }

  lemma CreditedSnoc(log: seq<Harvest>, h: Harvest, id: InboundId, email: string)
    ensures Credited(log + [h], id, email)
      == if h.id == id then Plus(Credited(log, id, email), Amount(h.records, email)) else Credited(log, id, email)
  {
    assert (log + [h])[..|log|] == log;
  }

  lemma AmountSnoc(front: seq<Traffic>, t: Traffic, email: string)
    ensures Amount(front + [t], email)
      == if t.email == email then Plus(Amount(front, email), Counters(t.up, t.down)) else Amount(front, email)
  {
    assert (front + [t])[..|front|] == front;
  }

  lemma {:induction false} NoAmount(records: seq<Traffic>, email: string)
    requires forall t <- records :: t.email != email
    ensures Amount(records, email) == ZERO
  {
    if records != [] {
      var front, last := records[..|records| - 1], records[|records| - 1];
      assert records == front + [last] && last in records;
      AmountSnoc(front, last, email);
      NoAmount(front, email);
    }
  }

  lemma InFront(front: seq<Traffic>, last: Traffic)
    requires Distinct(front + [last])
    ensures Distinct(front) && forall t <- front :: t in front + [last] && t != last
  {
    var all := front + [last];
    assert all[|front|] == last;
    assert forall i | 0 <= i < |front| :: all[i] == front[i];
  }

  /** The only record of a client is its amount. */
  lemma {:induction false} AmountOfOnly(records: seq<Traffic>, r: Traffic)
    requires Distinct(records) && r in records && forall t <- records | t.email == r.email :: t == r
    ensures Amount(records, r.email) == Counters(r.up, r.down)
  {
    var front, last := records[..|records| - 1], records[|records| - 1];
    assert records == front + [last] && last in records;
    InFront(front, last);
    AmountSnoc(front, last, r.email);
    if last == r {
      NoAmount(front, r.email);
    } else {
      AmountOfOnly(front, r);
    }
  }

  /** The records of one scrape hold each client's credit, once. */
  lemma ScrapeCredits(tag: string, users: map<string, StatsUser>, last: map<string, Counters>, out: seq<Traffic>,
                      email: string)
    requires Distinct(out) && Elems(out) == Reported(tag, users, last)
    ensures Amount(out, email) == if email in users then Credit(Get(last, email), CountersOf(users[email])) else ZERO
  {
    var c := if email in users then Credit(Get(last, email), CountersOf(users[email])) else ZERO;
    var r := RecordOf(tag, email, c);
    forall t <- out | t.email == email ensures t == r && c != ZERO {
      assert t in Elems(out);
    }
    if c != ZERO {
      assert r in Reported(tag, users, last);
      assert r in Elems(out);
      AmountOfOnly(out, r);
    } else {
      NoAmount(out, email);
    }
  }

  // ---------------------------------------------------------------- the ledger of a client

  function PhaseOf(w: World, id: InboundId, email: string): Phase {
    if w.stats.Some? && w.stats.value.0 == id then Read(Get(Baselines(w.stats.value.1), email))
    else if id in w.copies then Begun(Get(w.copies[id].last, email))
    else Idle
  }

  function LedgerOf(w: World, id: InboundId, email: string): Ledger {
    Ledger(id in w.s.procs, if id in w.s.procs then CountersAt(w, w.s.procs[id].proc, email) else ZERO,
           BaseOf(w.s, id, email), PhaseOf(w, id, email), Credited(w.log, id, email), MovedBy(w, id, email))
  }

  lemma ProcessIdsGrow(s: State, inst: Instance, o: Outcome)
    requires Valid(s)
    ensures s.next <= Ensured(s, inst, o).0.next
  {
  }

  /** With another manager state only these parts of a ledger differ. */
  lemma TrackedLedger(w: World, t: State, id: InboundId, email: string)
    ensures LedgerOf(w.(s := t), id, email) ==
      LedgerOf(w, id, email).(managed := id in t.procs, base := BaseOf(t, id, email),
                              counters := if id in t.procs then CountersAt(w, t.procs[id].proc, email) else ZERO)
  {
  }

  lemma NewProcessesCountFromZero(w: World, email: string)
    requires Wf(w)
    ensures CountersAt(w, Proc(w.s.next), email) == ZERO
  {
  }

  /** One ensure is at most one step of each client's ledger. */
  lemma EnsureIsLedgerRun(w: World, inst: Instance, o: Outcome, id: InboundId, email: string) returns (steps: seq<Step>)
    requires Wf(w)
    ensures var w' := w.(s := Ensured(w.s, inst, o).0);
      Wf(w') && LedgerOf(w', id, email) == Run(LedgerOf(w, id, email), steps)
  {
    var l, t := LedgerOf(w, id, email), Ensured(w.s, inst, o).0;
    EnsureKeeps(w.s, inst, o);
    EnsureIsLedgerStep(w.s, inst, o, id, email, l);
    NewProcessesCountFromZero(w, email);
    ProcessIdsGrow(w.s, inst, o);
    TrackedLedger(w, t, id, email);
    if Tracks(t, id, email, l) && (id in w.s.procs ==> t.procs[id].proc == w.s.procs[id].proc) {
      steps := [];
    } else if Tracks(t, id, email, Next(l, Replace)) && t.procs[id].proc == Proc(w.s.next) {
      steps := [Replace];
      RunOne(l, Replace);
    } else {
      steps := [Forget];
      RunOne(l, Forget);
    }
  }

  lemma RunOne(l: Ledger, step: Step)
    ensures Run(l, [step]) == Next(l, step)
  {
    assert [step][1..] == [];
    assert Run(Next(l, step), []) == Next(l, step);
  }

  lemma {:induction false} RunConcat(l: Ledger, a: seq<Step>, b: seq<Step>)
    ensures Run(l, a + b) == Run(Run(l, a), b)
    decreases |a|
  {
    if a == [] {
      assert a + b == b;
    } else {
      RunConcat(Next(l, a[0]), a[1..], b);
      assert (a + b)[1..] == a[1..] + b;
    }
  }

  lemma DiscardIsLedgerRun(w: World, gone: set<InboundId>, id: InboundId, email: string) returns (steps: seq<Step>)
    requires Wf(w)
    ensures var w' := w.(s := Discard(w.s, gone));
      Wf(w') && LedgerOf(w', id, email) == Run(LedgerOf(w, id, email), steps)
    ensures id !in gone ==> steps == []
  {
    var l := LedgerOf(w, id, email);
    DiscardKeeps(w.s, gone);
    DiscardIsLedgerStep(w.s, gone, id, email, l);
    if id in gone {
      steps := [Forget];
      RunOne(l, Forget);
    } else {
      steps := [];
    }
  }

  lemma {:induction false} LoopIsLedgerRun(w: World, desired: seq<Instance>, outcomes: seq<Outcome>, id: InboundId,
                                           email: string)
    returns (steps: seq<Step>)
    requires Wf(w) && |desired| == |outcomes|
    ensures var w' := w.(s := EnsuredAll(w.s, desired, outcomes).0);
      Wf(w') && LedgerOf(w', id, email) == Run(LedgerOf(w, id, email), steps)
    decreases |desired|
  {
    if desired == [] {
      steps := [];
    } else {
      var n := |desired| - 1;
      var front := LoopIsLedgerRun(w, desired[..n], outcomes[..n], id, email);
      var v := w.(s := EnsuredAll(w.s, desired[..n], outcomes[..n]).0);
      var last := EnsureIsLedgerRun(v, desired[n], outcomes[n], id, email);
      steps := front + last;
      RunConcat(LedgerOf(w, id, email), front, last);
      assert w.(s := EnsuredAll(w.s, desired, outcomes).0) == v.(s := Ensured(v.s, desired[n], outcomes[n]).0);
    }
  }

  lemma ReconcileIsLedgerRun(w: World, desired: seq<Instance>, outcomes: seq<Outcome>, id: InboundId, email: string)
    returns (steps: seq<Step>)
    requires Wf(w) && |desired| == |outcomes|
    ensures var w' := w.(s := Reconciled(w.s, desired, outcomes).0);
      Wf(w') && LedgerOf(w', id, email) == Run(LedgerOf(w, id, email), steps)
  {
    var gone := w.s.procs.Keys - Ids(desired);
    var v := w.(s := Discard(w.s, gone));
    var stopped := DiscardIsLedgerRun(w, gone, id, email);
    var ensured := LoopIsLedgerRun(v, desired, outcomes, id, email);
    steps := stopped + ensured;
    RunConcat(LedgerOf(w, id, email), stopped, ensured);
  }

  lemma ProcsDiffer(s: State, a: InboundId, b: InboundId)
    requires Valid(s) && a in s.procs && b in s.procs && a != b
    ensures s.procs[a].proc != s.procs[b].proc && s.procs[a].proc.pid < s.next
  {
    assert Recorded(s, a);
  }

  /** A change to the counters of one client shows in no other ledger. */
  lemma OtherCounters(w: World, owner: InboundId, user: string, c: Counters, id: InboundId, email: string)
    requires Wf(w) && owner in w.s.procs && (owner != id || user != email)
    ensures LedgerOf(w.(counters := w.counters[(w.s.procs[owner].proc, user) := c]), id, email)
      == LedgerOf(w, id, email)
  {
    if owner != id && id in w.s.procs {
      ProcsDiffer(w.s, owner, id);
    }
  }

  lemma CountersStayWf(w: World, owner: InboundId, user: string, c: Counters)
    requires Wf(w) && owner in w.s.procs
    ensures Wf(w.(counters := w.counters[(w.s.procs[owner].proc, user) := c]))
  {
    assert Recorded(w.s, owner);
  }

  lemma TransferStep(w: World, owner: InboundId, user: string, up: nat, down: nat, id: InboundId, email: string)
    returns (steps: seq<Step>)
    requires Wf(w) && Runs(w, owner)
    ensures var w' := Do(w, Transferring(owner, user, up, down));
      Wf(w') && LedgerOf(w', id, email) == Run(LedgerOf(w, id, email), steps)
    ensures forall s <- steps :: Gentle(s)
  {
    var c := Plus(CountersAt(w, w.s.procs[owner].proc, user), Counters(up, down));
    CountersStayWf(w, owner, user, c);
    if owner == id && user == email {
      steps := [Move(up, down)];
      RunOne(LedgerOf(w, id, email), Move(up, down));
    } else {
      steps := [];
      OtherCounters(w, owner, user, c, id, email);
    }
  }

  lemma RestartStep(w: World, owner: InboundId, user: string, id: InboundId, email: string) returns (steps: seq<Step>)
    requires Wf(w) && Runs(w, owner)
    ensures var w' := Do(w, Restarting(owner, user));
      Wf(w') && LedgerOf(w', id, email) == Run(LedgerOf(w, id, email), steps)
    ensures owner != id || user != email ==> steps == []
  {
    CountersStayWf(w, owner, user, ZERO);
    if owner == id && user == email {
      steps := [Reset];
      RunOne(LedgerOf(w, id, email), Reset);
    } else {
      steps := [];
      OtherCounters(w, owner, user, ZERO, id, email);
    }
  }

  lemma CopyStep(w: World, id: InboundId, email: string) returns (steps: seq<Step>)
    requires Wf(w) && Enabled(w, Copying)
    ensures LedgerOf(Do(w, Copying), id, email) == Run(LedgerOf(w, id, email), steps)
    ensures forall s <- steps :: Gentle(s)
  {
    var l := LedgerOf(w, id, email);
    CollectionIsLedgerSteps(w.s, id, email, l, map[]);
    if id in SnapsOf(w.s) {
      steps := [Begin];
      RunOne(l, Begin);
    } else {
      steps := [];
    }
  }

  lemma FailStep(w: World, owner: InboundId, id: InboundId, email: string) returns (steps: seq<Step>)
    requires Wf(w) && Enabled(w, Failing(owner))
    ensures LedgerOf(Do(w, Failing(owner)), id, email) == Run(LedgerOf(w, id, email), steps)
    ensures forall s <- steps :: Gentle(s)
  {
    var l := LedgerOf(w, id, email);
    if owner == id {
      steps := [ScrapeFails];
      RunOne(l, ScrapeFails);
    } else {
      steps := [];
    }
  }

  lemma AnswerCredits(log: seq<Harvest>, owner: InboundId, snap: Snap, users: map<string, StatsUser>, out: seq<Traffic>,
                      id: InboundId, email: string)
    requires Distinct(out) && Elems(out) == Reported(snap.tag, users, snap.last)
    ensures Credited(log + [Harvest(owner, out)], id, email)
      == if owner == id && email in users
         then Plus(Credited(log, id, email), Credit(Get(snap.last, email), CountersOf(users[email])))
         else Credited(log, id, email)
  {
    var before, h := Credited(log, id, email), Harvest(owner, out);
    ScrapeCredits(snap.tag, users, snap.last, out, email);
    PlusZero(before);
    CreditedSnoc(log, h, id, email);
  }

  lemma PlusZero(c: Counters)
    ensures Plus(c, ZERO) == c
  {
  }

  lemma AnsweredLedger(w: World, owner: InboundId, users: map<string, StatsUser>, log: seq<Harvest>, id: InboundId,
                       email: string)
    ensures LedgerOf(w.(stats := Some((owner, users)), log := log), id, email) ==
      LedgerOf(w, id, email).(credited := Credited(log, id, email),
                              phase := PhaseOf(w.(stats := Some((owner, users))), id, email))
  {
  }

  lemma AnswerStep(w: World, owner: InboundId, users: map<string, StatsUser>, out: seq<Traffic>, id: InboundId,
                   email: string)
    returns (steps: seq<Step>)
    requires w.stats.None? && owner in w.copies && owner in w.s.procs && TrueCounters(w, w.s.procs[owner].proc, users)
    requires Distinct(out) && Elems(out) == Reported(w.copies[owner].tag, users, w.copies[owner].last)
    ensures LedgerOf(w.(stats := Some((owner, users)), log := w.log + [Harvest(owner, out)]), id, email)
      == Run(LedgerOf(w, id, email), steps)
    ensures owner != id || email in users ==> forall s <- steps :: Gentle(s)
  {
    if owner == id {
      steps := [Scrape(email in users)];
      AnswerIsScrape(w, users, out, id, email);
      RunOne(LedgerOf(w, id, email), Scrape(email in users));
    } else {
      steps := [];
      AnswerCredits(w.log, owner, w.copies[owner], users, out, id, email);
      AnsweredLedger(w, owner, users, w.log + [Harvest(owner, out)], id, email);
    }
  }

  /** For the clients of the inbound that answered, the answer is a scrape. */
  lemma AnswerIsScrape(w: World, users: map<string, StatsUser>, out: seq<Traffic>, id: InboundId, email: string)
    requires w.stats.None? && id in w.copies && id in w.s.procs && TrueCounters(w, w.s.procs[id].proc, users)
    requires Distinct(out) && Elems(out) == Reported(w.copies[id].tag, users, w.copies[id].last)
    ensures LedgerOf(w.(stats := Some((id, users)), log := w.log + [Harvest(id, out)]), id, email)
      == Next(LedgerOf(w, id, email), Scrape(email in users))
  {
    AnswerCredits(w.log, id, w.copies[id], users, out, id, email);
    AnsweredLedger(w, id, users, w.log + [Harvest(id, out)], id, email);
    CollectionIsLedgerSteps(w.s, id, email, LedgerOf(w, id, email), users);
  }

  lemma StoreStep(w: World, id: InboundId, email: string) returns (steps: seq<Step>)
    requires Wf(w) && Enabled(w, Storing)
    ensures Wf(Do(w, Storing)) && LedgerOf(Do(w, Storing), id, email) == Run(LedgerOf(w, id, email), steps)
    ensures forall s <- steps :: Gentle(s)
  {
    var l, owner, users := LedgerOf(w, id, email), w.stats.value.0, w.stats.value.1;
    WriteBackKeeps(w.s, owner, Baselines(users));
    if owner == id {
      CollectionIsLedgerSteps(w.s, id, email, l, users);
      steps := [Store];
      RunOne(l, Store);
    } else {
      steps := [];
    }
  }

  // ---------------------------------------------------------------- what leaves a client alone

  /** A process older than `next` that is managed after an ensure was managed before, with the same baselines. */
  lemma EnsureKeepsSurvivor(s: State, inst: Instance, o: Outcome, id: InboundId)
    requires Valid(s)
    ensures var t := Ensured(s, inst, o).0;
      id in t.procs && t.procs[id].proc.pid < s.next ==>
      id in s.procs && t.procs[id].proc == s.procs[id].proc && t.procs[id].last == s.procs[id].last
  {
    if id != inst.id {
      EnsureTouchesOne(s, inst, o, id);
    } else if id in s.procs {
      assert Recorded(s, id);
    }
  }

  lemma {:induction false} LoopKeepsSurvivor(s: State, desired: seq<Instance>, outcomes: seq<Outcome>, id: InboundId)
    requires Valid(s) && |desired| == |outcomes|
    ensures var t := EnsuredAll(s, desired, outcomes).0;
      && s.next <= t.next
      && (id in t.procs && t.procs[id].proc.pid < s.next ==>
            id in s.procs && t.procs[id].proc == s.procs[id].proc && t.procs[id].last == s.procs[id].last)
    decreases |desired|
  {
    if desired != [] {
      var n := |desired| - 1;
      var front := EnsuredAll(s, desired[..n], outcomes[..n]).0;
      LoopKeepsSurvivor(s, desired[..n], outcomes[..n], id);
      ProcessIdsGrow(front, desired[n], outcomes[n]);
      EnsureKeepsSurvivor(front, desired[n], outcomes[n], id);
    }
  }

  /** The same process serves the inbound before and after. */
  predicate SameProcess(s: State, t: State, id: InboundId) {
    id in s.procs && id in t.procs && s.procs[id].proc == t.procs[id].proc
  }

  /** A reconciliation that leaves an inbound its process leaves its clients their ledgers. */
  lemma ReconcileKeepsLedger(w: World, desired: seq<Instance>, outcomes: seq<Outcome>, id: InboundId, email: string)
    requires Wf(w) && |desired| == |outcomes| && SameProcess(w.s, Reconciled(w.s, desired, outcomes).0, id)
    ensures LedgerOf(w.(s := Reconciled(w.s, desired, outcomes).0), id, email) == LedgerOf(w, id, email)
  {
    var gone, t := w.s.procs.Keys - Ids(desired), Reconciled(w.s, desired, outcomes).0;
    assert Recorded(w.s, id);
    DiscardKeeps(w.s, gone);
    LoopKeepsSurvivor(Discard(w.s, gone), desired, outcomes, id);
    TrackedLedger(w, t, id, email);
  }

  /** The action leaves the client its process, its counters and its place in the statistics. */
  ghost predicate GentleAt(w: World, a: Action, id: InboundId, email: string)
    requires Valid(w.s) && Enabled(w, a)
  {
    match a
    case Reconciling(desired, outcomes) => SameProcess(w.s, Reconciled(w.s, desired, outcomes).0, id)
    case Removing(gone) => gone != id
    case Restarting(owner, user) => owner != id || user != email
    case Answering(owner, users, _) => owner != id || email in users
    case _ => true
  }

  /**
    Reconciling is gentle to every inbound that runs with its structure unchanged, unless it was asked
    to take new secrets and did not: the periodic reconciliation before a collection is.
  */
  lemma ReconcilingIsGentle(w: World, desired: seq<Instance>, outcomes: seq<Outcome>, k: nat, email: string)
    requires Wf(w) && |desired| == |outcomes| && DistinctIds(desired) && k < |desired| && Runs(w, desired[k].id)
    requires w.s.procs[desired[k].id].structuralFP == w.s.prints.structural(desired[k])
    requires w.s.procs[desired[k].id].secretsFP == w.s.prints.secrets(desired[k].secrets)
             || !outcomes[k].rewritten || outcomes[k].applied
    ensures GentleAt(w, Reconciling(desired, outcomes), desired[k].id, email)
  {
    ReconcileKeepsProcesses(w.s, desired, outcomes, k);
  }

  /** Whatever the manager, its processes and a collection do is a run of each client's ledger. */
  lemma ActionIsLedgerRun(w: World, a: Action, id: InboundId, email: string) returns (steps: seq<Step>)
    requires Wf(w) && Enabled(w, a)
    ensures Wf(Do(w, a)) && LedgerOf(Do(w, a), id, email) == Run(LedgerOf(w, id, email), steps)
    ensures GentleAt(w, a, id, email) ==> forall s <- steps :: Gentle(s)
  {
    match a {
      case Reconciling(desired, outcomes) => steps := ReconcileStep(w, desired, outcomes, id, email);
      case Removing(gone) => steps := DiscardIsLedgerRun(w, {gone}, id, email);
      case Crashing(proc) =>
        CrashKeeps(w.s, proc);
        steps := [];
      case Transferring(owner, user, up, down) => steps := TransferStep(w, owner, user, up, down, id, email);
      case Restarting(owner, user) => steps := RestartStep(w, owner, user, id, email);
      case Copying => steps := CopyStep(w, id, email);
      case Failing(owner) => steps := FailStep(w, owner, id, email);
      case Answering(owner, users, out) => steps := AnswerStep(w, owner, users, out, id, email);
      case Storing => steps := StoreStep(w, id, email);
    }
  }

  lemma ReconcileStep(w: World, desired: seq<Instance>, outcomes: seq<Outcome>, id: InboundId, email: string)
    returns (steps: seq<Step>)
    requires Wf(w) && |desired| == |outcomes|
    ensures var w' := w.(s := Reconciled(w.s, desired, outcomes).0);
      Wf(w') && LedgerOf(w', id, email) == Run(LedgerOf(w, id, email), steps)
    ensures SameProcess(w.s, Reconciled(w.s, desired, outcomes).0, id) ==> steps == []
  {
    steps := ReconcileIsLedgerRun(w, desired, outcomes, id, email);
    if SameProcess(w.s, Reconciled(w.s, desired, outcomes).0, id) {
      ReconcileKeepsLedger(w, desired, outcomes, id, email);
      steps := [];
    }
  }

  lemma CrashKeeps(s: State, proc: Proc)
    requires Valid(s)
    ensures Valid(s.(live := s.live - {proc}))
  {
    var t := s.(live := s.live - {proc});
    forall id <- t.procs ensures Recorded(t, id) {
      assert Recorded(s, id);
    }
  }

  // ---------------------------------------------------------------- runs

  /** A run; an action that is not possible is skipped. */
  function After(w: World, actions: seq<Action>): World
    requires Wf(w)
    decreases |actions|
  {
    if actions == [] then w
    else if !Enabled(w, actions[0]) then After(w, actions[1..])
    else
      assert Wf(Do(w, actions[0])) by {
        var steps := ActionIsLedgerRun(w, actions[0], InboundId(0), "");
      }
      After(Do(w, actions[0]), actions[1..])
  }

  /** Every action of the run, where it happens, leaves the client alone. */
  ghost predicate GentleRun(w: World, actions: seq<Action>, id: InboundId, email: string)
    requires Wf(w)
    decreases |actions|
  {
    if actions == [] then true
    else if !Enabled(w, actions[0]) then GentleRun(w, actions[1..], id, email)
    else
      assert Wf(Do(w, actions[0])) by {
        var steps := ActionIsLedgerRun(w, actions[0], id, email);
      }
      GentleAt(w, actions[0], id, email) && GentleRun(Do(w, actions[0]), actions[1..], id, email)
  }

  lemma {:induction false} RunIsLedgerRun(w: World, actions: seq<Action>, id: InboundId, email: string)
    returns (steps: seq<Step>)
    requires Wf(w)
    ensures LedgerOf(After(w, actions), id, email) == Run(LedgerOf(w, id, email), steps)
    ensures GentleRun(w, actions, id, email) ==> forall s <- steps :: Gentle(s)
    decreases |actions|
  {
    if actions == [] {
      steps := [];
    } else if !Enabled(w, actions[0]) {
      steps := RunIsLedgerRun(w, actions[1..], id, email);
    } else {
      var first := ActionIsLedgerRun(w, actions[0], id, email);
      var rest := RunIsLedgerRun(Do(w, actions[0]), actions[1..], id, email);
      steps := first + rest;
      RunConcat(LedgerOf(w, id, email), first, rest);
    }
  }

  lemma EmptyWorldIsWf()
    ensures Wf(EMPTY_WORLD)
  {
    CodePrintsAreLayered();
  }

  /** The world in which a new manager starts. */
  function Start(): (w: World)
    ensures Wf(w) && w == EMPTY_WORLD
  {
    EmptyWorldIsWf();
    EMPTY_WORLD
  }

  /** Over every run of the manager, the records of a client add up to no more than it really moved. */
  lemma RecordsNeverExceedTraffic(actions: seq<Action>, id: InboundId, email: string)
    ensures var w := After(Start(), actions); AtMost(Credited(w.log, id, email), MovedBy(w, id, email))
  {
    var steps := RunIsLedgerRun(Start(), actions, id, email);
    assert LedgerOf(Start(), id, email) == START;
    StartIsHonest(steps);
  }

  /**
    While a client keeps its process and stays listed, its records account for its traffic to the
    byte: what it moved was credited or is outstanding, however reconciliations, removals, collections
    and other clients interleave.
  */
  lemma RecordsAccountForTraffic(w: World, actions: seq<Action>, id: InboundId, email: string)
    requires Wf(w) && Steady(LedgerOf(w, id, email)) && GentleRun(w, actions, id, email)
    ensures var l, l' := LedgerOf(w, id, email), LedgerOf(After(w, actions), id, email);
      Steady(l') && Minus(Plus(l'.credited, Outstanding(l')), l'.moved)
        == Minus(Plus(l.credited, Outstanding(l)), l.moved)
  {
    var steps := RunIsLedgerRun(w, actions, id, email);
    NothingIsLost(LedgerOf(w, id, email), steps);
  }

  /** Over such a run, any number of collections long, the records telescope: they sum to the growth of the baseline. */
  lemma RecordsTelescope(w: World, actions: seq<Action>, id: InboundId, email: string)
    requires Wf(w) && Steady(LedgerOf(w, id, email)) && GentleRun(w, actions, id, email)
    requires !PhaseOf(w, id, email).Read? && !PhaseOf(After(w, actions), id, email).Read?
    ensures var w' := After(w, actions);
      && BaseOf(w.s, id, email).Some? && BaseOf(w'.s, id, email).Some?
      && Minus(Credited(w'.log, id, email), Credited(w.log, id, email))
         == Minus(BaseOf(w'.s, id, email).value, BaseOf(w.s, id, email).value)
  {
    var steps := RunIsLedgerRun(w, actions, id, email);
    NothingIsLost(LedgerOf(w, id, email), steps);
    CountersFollowTraffic(LedgerOf(w, id, email), steps);
  }
}
