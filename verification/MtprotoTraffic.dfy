/**
  Traffic of mtproto clients, as differences of cumulative counters (internal/mtproto/manager.go).

  The lock is released between copying the baselines, scraping, and writing the new baselines
  back, so the process may grow its counters, lose them or be replaced in between.
*/
module MtprotoTraffic {
  import opened Wrappers
  import opened Sequences
  import opened MtprotoConfig
  import opened MtprotoManager
  import opened MtprotoReconcile

  datatype StatsUser = StatsUser(connections: int, bytesIn: int, bytesOut: int)

  datatype Traffic = Traffic(tag: string, email: string, up: int, down: int)

  const ZERO := Counters(0, 0)

  function AtLeastZero(n: int): nat {
    if n < 0 then 0 else n
  }

  /** What one scrape credits to a client with this baseline. */
  function Credit(base: Option<Counters>, now: Counters): Counters {
    match base
    case None => ZERO
    case Some(b) => Counters(AtLeastZero(now.up - b.up), AtLeastZero(now.down - b.down))
  }

  function Get<V>(m: map<string, V>, key: string): Option<V> {
    if key in m then Some(m[key]) else None
  }

  function CountersOf(u: StatsUser): Counters {
    Counters(u.bytesIn, u.bytesOut)
  }

  function Baselines(users: map<string, StatsUser>): map<string, Counters> {
    map email | email in users :: CountersOf(users[email])
  }

  function RecordOf(tag: string, email: string, c: Counters): Traffic {
    Traffic(tag, email, c.up, c.down)
  }

  /** One record for every client that is credited anything. */
  function Reported(tag: string, users: map<string, StatsUser>, last: map<string, Counters>): set<Traffic> {
    set email | email in users && Credit(Get(last, email), CountersOf(users[email])) != ZERO ::
      RecordOf(tag, email, Credit(Get(last, email), CountersOf(users[email])))
  }

  function Connected(users: map<string, StatsUser>): set<string> {
    set email | email in users && users[email].connections > 0
  }

  function Only(users: map<string, StatsUser>, emails: set<string>): map<string, StatsUser> {
    map email | email in users && email in emails :: users[email]
  }

  method CreditUser(tag: string, email: string, u: StatsUser, last: map<string, Counters>) returns (out: seq<Traffic>)
    ensures var c := Credit(Get(last, email), CountersOf(u)); out == if c != ZERO then [RecordOf(tag, email, c)] else []
  {
    if email !in last {
      return [];
    }
    var prev := last[email];
    var du, dd := u.bytesIn - prev.up, u.bytesOut - prev.down;
    if du < 0 {
      du := 0;
    }
    if dd < 0 {
      dd := 0;
    }
    out := if du > 0 || dd > 0 then [Traffic(tag, email, du, dd)] else [];
  }

  /** The loop over the users of one scrape, in whatever order the map yields them. */
  method Scraped(tag: string, users: map<string, StatsUser>, last: map<string, Counters>)
    returns (newLast: map<string, Counters>, out: seq<Traffic>, online: seq<string>)
    ensures newLast == Baselines(users)
    ensures Distinct(out) && Elems(out) == Reported(tag, users, last)
    ensures Distinct(online) && Elems(online) == Connected(users)
  {
    newLast, out, online := map[], [], [];
    var todo := users.Keys;
    ghost var seen: map<string, StatsUser> := map[];
    while todo != {}
      invariant todo <= users.Keys && seen == Only(users, users.Keys - todo)
      invariant newLast == Baselines(seen)
      invariant Distinct(out) && Elems(out) == Reported(tag, seen, last)
      invariant Distinct(online) && Elems(online) == Connected(seen)
      decreases todo
    {
      var email :| email in todo;
      var u := users[email];
      newLast := newLast[email := CountersOf(u)];
      if u.connections > 0 {
        online := online + [email];
      }
      ReportedStep(tag, seen, last, email, u);
      var credited := CreditUser(tag, email, u, last);
      out := out + credited;
      seen := seen[email := u];
      todo := todo - {email};
    }
    assert seen == users;
  }

  /**
    Bytes in count as upload and bytes out as download: a record is what both have grown since the baseline,
    for each client that has one and has grown in either; the new baselines are the counters themselves.
  */
  lemma RecordsAreGrowth(tag: string, users: map<string, StatsUser>, last: map<string, Counters>, r: Traffic)
    ensures r in Reported(tag, users, last) <==>
      && r.tag == tag && r.email in users && r.email in last
      && r.up == (if users[r.email].bytesIn > last[r.email].up then users[r.email].bytesIn - last[r.email].up else 0)
      && r.down == (if users[r.email].bytesOut > last[r.email].down then users[r.email].bytesOut - last[r.email].down
        else 0)
      && (r.up > 0 || r.down > 0)
    ensures forall e :: e in Connected(users) <==> e in users && users[e].connections >= 1
    ensures Baselines(users).Keys == users.Keys
    ensures forall e | e in users ::
      Baselines(users)[e].up == users[e].bytesIn && Baselines(users)[e].down == users[e].bytesOut
  {
  }

  lemma ReportedStep(tag: string, seen: map<string, StatsUser>, last: map<string, Counters>, email: string,
                     u: StatsUser)
    requires email !in seen
    ensures Baselines(seen[email := u]) == Baselines(seen)[email := CountersOf(u)]
    ensures Connected(seen[email := u]) == Connected(seen) + if u.connections > 0 then {email} else {}
    ensures var c := Credit(Get(last, email), CountersOf(u));
      Reported(tag, seen[email := u], last)
      == Reported(tag, seen, last) + if c != ZERO then {RecordOf(tag, email, c)} else {}
    ensures forall t <- Reported(tag, seen, last) :: t.email != email
  {
    var more := seen[email := u];
    var c := Credit(Get(last, email), CountersOf(u));
    forall t ensures t in Reported(tag, more, last) <==>
        t in Reported(tag, seen, last) || (c != ZERO && t == RecordOf(tag, email, c)) {
      if t in Reported(tag, seen, last) {
        var e :| e in seen && Credit(Get(last, e), CountersOf(seen[e])) != ZERO
                 && t == RecordOf(tag, e, Credit(Get(last, e), CountersOf(seen[e])));
        assert more[e] == seen[e];
      }
      if c != ZERO && t == RecordOf(tag, email, c) {
        assert more[email] == u;
      }
    }
  }

  // ---------------------------------------------------------------- one client over time

  /** How far a collection has come, for one client. */
  datatype Phase = Idle | Begun(copied: Option<Counters>) | Read(found: Option<Counters>)

  /** One client of one inbound: its counters, its baseline, what was credited and what it really moved. */
  datatype Ledger = Ledger(
    managed: bool, counters: Counters, base: Option<Counters>, phase: Phase, credited: Counters, moved: Counters)

  datatype Step =
    | Move(up: nat, down: nat)     // the client transfers bytes
    | Reset                        // the counters start over in the same process
    | Replace                      // a new process for the inbound
    | Forget                       // the inbound is no longer managed
    | Begin                        // the baselines are copied
    | ScrapeFails
    | Scrape(listed: bool)         // the counters are read; the client may be missing
    | Store                        // the new baselines are written back

  function Plus(a: Counters, b: Counters): Counters {
    Counters(a.up + b.up, a.down + b.down)
  }

  function Minus(a: Counters, b: Counters): Counters {
    Counters(a.up - b.up, a.down - b.down)
  }

  predicate AtMost(a: Counters, b: Counters) {
    a.up <= b.up && a.down <= b.down
  }

  /** A step that is not possible changes nothing. */
  function Next(l: Ledger, step: Step): Ledger {
    match step
    case Move(up, down) =>
      l.(counters := Plus(l.counters, Counters(up, down)), moved := Plus(l.moved, Counters(up, down)))
    case Reset => l.(counters := ZERO)
    case Replace => l.(managed := true, counters := ZERO, base := None)
    case Forget => l.(managed := false, counters := ZERO, base := None)
    case Begin => if l.phase.Idle? && l.managed then l.(phase := Begun(l.base)) else l
    case ScrapeFails => if l.phase.Begun? then l.(phase := Idle) else l
    case Scrape(listed) =>
      if !l.phase.Begun? then l
      else if !listed then l.(phase := Read(None))
      else l.(phase := Read(Some(l.counters)), credited := Plus(l.credited, Credit(l.phase.copied, l.counters)))
    case Store =>
      if !l.phase.Read? then l
      else l.(phase := Idle, base := if l.managed then l.phase.found else l.base)
  }

  function Run(l: Ledger, steps: seq<Step>): Ledger
    decreases |steps|
  {
    if steps == [] then l else Run(Next(l, steps[0]), steps[1..])
  }

  const START := Ledger(false, ZERO, None, Idle, ZERO, ZERO)

  /** Crediting against this baseline would still be honest. */
  predicate Honest(l: Ledger, base: Option<Counters>) {
    && AtMost(Plus(l.credited, Credit(base, l.counters)), l.moved)
    && (base.Some? ==> AtMost(ZERO, base.value))
  }

  /** The baseline the next credit will be computed from. */
  function Reference(l: Ledger): Option<Counters> {
    if l.phase.Read? then (if l.managed then l.phase.found else l.base) else l.base
  }

  predicate LedgerOk(l: Ledger) {
    && AtMost(ZERO, l.counters) && Honest(l, None) && Honest(l, Reference(l))
    && (l.phase.Begun? ==> Honest(l, l.phase.copied))
    && (l.phase.Read? ==> Honest(l, l.phase.found))
    && (!l.managed ==> l.base == None)
  }

  lemma StepIsHonest(l: Ledger, step: Step)
    requires LedgerOk(l)
    ensures LedgerOk(Next(l, step))
  {
  }

  /** Over every run, a client is never credited more than it moved, in either direction. */
  lemma {:induction false} NeverOverReported(l: Ledger, steps: seq<Step>)
    requires LedgerOk(l)
    ensures LedgerOk(Run(l, steps)) && AtMost(Run(l, steps).credited, Run(l, steps).moved)
    decreases |steps|
  {
    if steps != [] {
      StepIsHonest(l, steps[0]);
      NeverOverReported(Next(l, steps[0]), steps[1..]);
    }
  }

  lemma StartIsHonest(steps: seq<Step>)
    ensures AtMost(Run(START, steps).credited, Run(START, steps).moved)
  {
    NeverOverReported(START, steps);
  }

  // ---------------------------------------------------------------- the manager takes these steps

  function BaseOf(s: State, id: InboundId, email: string): Option<Counters> {
    if id in s.procs then Get(s.procs[id].last, email) else None
  }

  /** The ledger of a client agrees with what the manager stores for it. */
  predicate Tracks(s: State, id: InboundId, email: string, l: Ledger) {
    (l.managed <==> id in s.procs) && l.base == BaseOf(s, id, email)
  }

  /** Ensuring any instance keeps a client's process and baseline, replaces the process, or forgets it. */
  lemma EnsureIsLedgerStep(s: State, inst: Instance, o: Outcome, id: InboundId, email: string, l: Ledger)
    requires Valid(s) && Tracks(s, id, email, l)
    ensures var t := Ensured(s, inst, o).0;
      || (Tracks(t, id, email, l) && (id in s.procs ==> t.procs[id].proc == s.procs[id].proc))
      || (Tracks(t, id, email, Next(l, Replace)) && t.procs[id].proc == Proc(s.next))
      || Tracks(t, id, email, Next(l, Forget))
  {
    if id != inst.id {
      EnsureTouchesOne(s, inst, o, id);
    } else if id in s.procs {
      assert Recorded(s, id);
    }
  }

  lemma DiscardIsLedgerStep(s: State, gone: set<InboundId>, id: InboundId, email: string, l: Ledger)
    requires Tracks(s, id, email, l)
    ensures Tracks(Discard(s, gone), id, email, if id in gone then Next(l, Forget) else l)
  {
  }

  /** Copying, reading and writing back as the manager does are the ledger's steps, credits included. */
  lemma CollectionIsLedgerSteps(s: State, id: InboundId, email: string, l: Ledger, users: map<string, StatsUser>)
    requires Tracks(s, id, email, l)
    ensures l.phase.Idle? && id in SnapsOf(s) ==>
      Next(l, Begin) == l.(phase := Begun(Get(SnapsOf(s)[id].last, email)))
    ensures l.phase.Begun? && email in users && l.counters == CountersOf(users[email]) ==>
      Next(l, Scrape(true)) == l.(phase := Read(Get(Baselines(users), email)),
                                  credited := Plus(l.credited, Credit(l.phase.copied, CountersOf(users[email]))))
    ensures l.phase.Begun? && email !in users ==>
      Next(l, Scrape(false)) == l.(phase := Read(Get(Baselines(users), email)))
    ensures l.phase == Read(Get(Baselines(users), email)) ==>
      Tracks(Written(s, id, Baselines(users)), id, email, Next(l, Store))
  {
  }

  // ---------------------------------------------------------------- exactly, while nothing is lost

  /** The client stays listed and its counters only grow. */
  predicate Gentle(step: Step) {
    step.Move? || step.Begin? || step.ScrapeFails? || step.Store? || (step.Scrape? && step.listed)
  }

  predicate Steady(l: Ledger) {
    && l.managed && l.base.Some? && AtMost(l.base.value, l.counters)
    && (l.phase.Begun? ==> l.phase.copied == l.base)
    && (l.phase.Read? ==> l.phase.found.Some? && AtMost(l.phase.found.value, l.counters))
  }

  /** Moved since the counters were last read. */
  function Outstanding(l: Ledger): Counters
    requires Steady(l)
  {
    Minus(l.counters, Reference(l).value)
  }

  /** While the client stays listed, what was moved is either credited or outstanding, to the byte. */
  lemma {:induction false} NothingIsLost(l: Ledger, steps: seq<Step>)
    requires Steady(l) && forall s <- steps :: Gentle(s)
    ensures var r := Run(l, steps);
      && Steady(r)
      && Minus(Plus(r.credited, Outstanding(r)), r.moved) == Minus(Plus(l.credited, Outstanding(l)), l.moved)
    decreases |steps|
  {
    if steps != [] {
      assert steps[0] in steps;
      NothingIsLost(Next(l, steps[0]), steps[1..]);
    }
  }

  /** Without resets the counters grow by exactly what is moved. */
  lemma {:induction false} CountersFollowTraffic(l: Ledger, steps: seq<Step>)
    requires forall s <- steps :: Gentle(s)
    ensures Minus(Run(l, steps).counters, Run(l, steps).moved) == Minus(l.counters, l.moved)
    decreases |steps|
  {
    if steps != [] {
      assert steps[0] in steps;
      CountersFollowTraffic(Next(l, steps[0]), steps[1..]);
    }
  }
}
