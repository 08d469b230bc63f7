/**
  Whole runs of the lease coordinator: any interleaving of admissions, releases, snapshots
  and sweeps under a clock that never goes back.
*/
module LeaseRuns {
  import opened Sequences
  import opened Wrappers
  import opened LeaseTable
  import opened LeaseListing
  import opened Coordinator

  datatype Op =
    | Acquire(limits: seq<int>, guid: string, ip: string, holder: string)
    | Release(guid: string, ip: string, holder: string)
    | Snapshot(guid: string)
    | Sweep

  datatype Call = Call(ns: int, op: Op)

  datatype Answer = Admission(decision: Result<Decision, Error>) | Listing(rows: Result<seq<Holder>, Error>) | Silent

  function Step(lib: Library, ttl: int, t: Table, call: Call): (Table, Answer) {
    match call.op
    case Acquire(limits, guid, ip, holder) =>
      var (t', r) := Acquired(lib, ttl, t, limits, guid, ip, holder, call.ns); (t', Admission(r))
    case Release(guid, ip, holder) => (Released(lib, t, guid, ip, holder).0, Silent)
    case Snapshot(guid) => var (t', r) := Snapshotted(lib, t, guid, call.ns); (t', Listing(r))
    case Sweep => (Unexpired(t, Millis(call.ns)), Silent)
  }

  function After(lib: Library, ttl: int, t: Table, calls: seq<Call>): Table
    decreases |calls|
  {
    if calls == [] then t else After(lib, ttl, Step(lib, ttl, t, calls[0]).0, calls[1..])
  }

  /** The answers of all admissions and snapshots, in order. */
  function Answers(lib: Library, ttl: int, t: Table, calls: seq<Call>): seq<Answer>
    decreases |calls|
  {
    if calls == [] then []
    else
      var (t', answer) := Step(lib, ttl, t, calls[0]);
      (if answer.Silent? then [] else [answer]) + Answers(lib, ttl, t', calls[1..])
  }

  function WithoutSweeps(calls: seq<Call>): seq<Call> {
    if calls == [] then []
    else (if calls[0].op.Sweep? then [] else [calls[0]]) + WithoutSweeps(calls[1..])
  }

  predicate ClockFrom(calls: seq<Call>, ns: int) {
    calls == [] || (ns <= calls[0].ns && ClockFrom(calls[1..], calls[0].ns))
  }

  // ---------------------------------------------------------------- the sweep is invisible

  predicate Agree(t: Table, u: Table, now: int) {
    Unexpired(t, now) == Unexpired(u, now)
  }

  lemma AgreeAt(t: Table, u: Table, now: int, k: Key)
    requires Agree(t, u, now)
    ensures Live(t, k, now) <==> Live(u, k, now)
    ensures Live(t, k, now) ==> t[k] == u[k]
  {
    assert k in Unexpired(t, now) <==> k in Unexpired(u, now);
    if Live(t, k, now) {
      assert Unexpired(t, now)[k] == Unexpired(u, now)[k];
    }
  }

  lemma AgreeFromRows(t: Table, u: Table, now: int)
    requires forall k :: Live(t, k, now) <==> Live(u, k, now)
    requires forall k | Live(t, k, now) && Live(u, k, now) :: t[k] == u[k]
    ensures Agree(t, u, now)
  {
    var a, b := Unexpired(t, now), Unexpired(u, now);
    assert forall k :: k in a <==> Live(t, k, now);
    assert forall k :: k in b <==> Live(u, k, now);
  }

  lemma AgreeLater(t: Table, u: Table, now: int, later: int)
    requires Agree(t, u, now) && now <= later
    ensures Agree(t, u, later)
  {
    forall k ensures Live(t, k, later) <==> Live(u, k, later) {
      AgreeAt(t, u, now, k);
    }
    forall k | Live(t, k, later) ensures t[k] == u[k] {
      AgreeAt(t, u, now, k);
    }
    AgreeFromRows(t, u, later);
  }

  lemma SweepAgrees(t: Table, now: int)
    ensures Agree(Unexpired(t, now), t, now)
  {
  }

  /** Tables that agree, and whose rows for one client are the same and unexpired. */
  predicate Twins(t: Table, u: Table, guid: string, now: int) {
    && Agree(t, u, now)
    && RowsOf(t, guid) == RowsOf(u, guid)
    && (forall k | k in RowsOf(t, guid) :: t[k].expiresAt > now)
  }

  lemma PruneMakesTwins(t: Table, u: Table, guid: string, now: int)
    requires Agree(t, u, now)
    ensures Twins(PruneClient(t, guid, now), PruneClient(u, guid, now), guid, now)
  {
    var p, q := PruneClient(t, guid, now), PruneClient(u, guid, now);
    forall k ensures Live(p, k, now) <==> Live(q, k, now) {
      AgreeAt(t, u, now, k);
    }
    forall k | Live(p, k, now) ensures p[k] == q[k] {
      AgreeAt(t, u, now, k);
    }
    AgreeFromRows(p, q, now);
    forall k: Key | k.guid == guid ensures (k in p <==> k in q) && (k in p ==> p[k] == q[k] && p[k].expiresAt > now) {
      AgreeAt(t, u, now, k);
    }
    assert RowsOf(p, guid) == RowsOf(q, guid);
  }

  /** Ages read nothing but the client's own rows. */
  lemma AgesReadOwnRows(t: Table, guid: string, now: int)
    ensures Ages(t, guid, now) == Ages(RowsOf(t, guid), guid, now)
  {
    var own := RowsOf(t, guid);
    assert ActiveIps(t, guid, now) == ActiveIps(own, guid, now) by {
      forall ip | ip in ActiveIps(t, guid, now) ensures ip in ActiveIps(own, guid, now) {
        var k :| k in t && k.guid == guid && t[k].expiresAt > now && k.ip == ip;
        assert k in own;
      }
    }
    forall ip | ip in Ages(t, guid, now) ensures Ages(t, guid, now)[ip] == Ages(own, guid, now)[ip] {
      assert Creations(t, guid, ip, now) == Creations(own, guid, ip, now) by {
        forall c | c in Creations(t, guid, ip, now) ensures c in Creations(own, guid, ip, now) {
          var k :| k in t && k.guid == guid && k.ip == ip && t[k].expiresAt > now && Stamp(t[k].createdAt) == c;
          assert k in own;
        }
      }
    }
  }

  lemma TwinsShareAges(t: Table, u: Table, guid: string, now: int)
    requires Twins(t, u, guid, now)
    ensures Ages(t, guid, now) == Ages(u, guid, now) && ActiveIps(t, guid, now) == ActiveIps(u, guid, now)
  {
    AgesReadOwnRows(t, guid, now);
    AgesReadOwnRows(u, guid, now);
    assert Ages(t, guid, now).Keys == Ages(u, guid, now).Keys;
  }

  lemma DeleteKeepsTwins(t: Table, u: Table, guid: string, now: int, ips: set<string>)
    requires Twins(t, u, guid, now)
    ensures Twins(DeleteIps(t, guid, ips), DeleteIps(u, guid, ips), guid, now)
  {
    var p, q := DeleteIps(t, guid, ips), DeleteIps(u, guid, ips);
    forall k ensures Live(p, k, now) <==> Live(q, k, now) {
      AgreeAt(t, u, now, k);
    }
    forall k | Live(p, k, now) ensures p[k] == q[k] {
      AgreeAt(t, u, now, k);
    }
    AgreeFromRows(p, q, now);
    forall k: Key | k.guid == guid ensures (k in p <==> k in q) && (k in p ==> p[k] == q[k] && p[k].expiresAt > now) {
      OwnRow(t, u, guid, now, k);
    }
    assert RowsOf(p, guid) == RowsOf(q, guid);
  }

  lemma OwnRow(t: Table, u: Table, guid: string, now: int, k: Key)
    requires Twins(t, u, guid, now) && k.guid == guid
    ensures (k in t <==> k in u) && (k in t ==> t[k] == u[k] && t[k].expiresAt > now)
  {
    assert k in t <==> k in RowsOf(t, guid);
    assert k in u <==> k in RowsOf(u, guid);
    if k in t {
      assert RowsOf(t, guid)[k] == RowsOf(u, guid)[k];
    }
  }

  lemma ConvergeKeepsTwins(t: Table, u: Table, guid: string, limit: nat, now: int)
    requires Twins(t, u, guid, now)
    ensures Twins(Converge(t, guid, limit, now).0, Converge(u, guid, limit, now).0, guid, now)
    ensures Converge(t, guid, limit, now).1 == Converge(u, guid, limit, now).1
  {
    TwinsShareAges(t, u, guid, now);
    DeleteKeepsTwins(t, u, guid, now,
                     Elems(Oldest(Ages(t, guid, now))[if |Ages(t, guid, now)| <= limit then 0 else limit..]));
  }

  lemma UpsertKeepsAgreement(t: Table, u: Table, k: Key, expiresAt: int, now: int)
    requires Twins(t, u, k.guid, now)
    ensures Agree(Upsert(t, k, expiresAt, now), Upsert(u, k, expiresAt, now), now)
  {
    var p, q := Upsert(t, k, expiresAt, now), Upsert(u, k, expiresAt, now);
    OwnRow(t, u, k.guid, now, k);
    forall r ensures Live(p, r, now) <==> Live(q, r, now) {
      AgreeAt(t, u, now, r);
    }
    forall r | Live(p, r, now) ensures p[r] == q[r] {
      AgreeAt(t, u, now, r);
    }
    AgreeFromRows(p, q, now);
  }

  lemma ClearKeepsAgreement(t: Table, u: Table, guid: string, now: int)
    requires Agree(t, u, now)
    ensures Agree(map r | r in t && r.guid != guid :: t[r], map r | r in u && r.guid != guid :: u[r], now)
  {
    var p, q := map r | r in t && r.guid != guid :: t[r], map r | r in u && r.guid != guid :: u[r];
    forall r ensures Live(p, r, now) <==> Live(q, r, now) {
      AgreeAt(t, u, now, r);
    }
    forall r | Live(p, r, now) ensures p[r] == q[r] {
      AgreeAt(t, u, now, r);
    }
    AgreeFromRows(p, q, now);
  }

  lemma DecideAgrees(t: Table, u: Table, slots: nat, limit: nat, k: Key, now: int, expiresAt: int)
    requires Twins(t, u, k.guid, now)
    ensures Decide(t, slots, limit, k, now, expiresAt).1 == Decide(u, slots, limit, k, now, expiresAt).1
    ensures Agree(Decide(t, slots, limit, k, now, expiresAt).0, Decide(u, slots, limit, k, now, expiresAt).0, now)
  {
    TwinsShareAges(t, u, k.guid, now);
    UpsertKeepsAgreement(t, u, k, expiresAt, now);
  }

  /** Admission depends on unexpired rows only. */
  lemma AdmitAgrees(t: Table, u: Table, limit: nat, k: Key, now: int, expiresAt: int)
    requires Agree(t, u, now)
    ensures Admit(t, limit, k, now, expiresAt).1 == Admit(u, limit, k, now, expiresAt).1
    ensures Agree(Admit(t, limit, k, now, expiresAt).0, Admit(u, limit, k, now, expiresAt).0, now)
  {
    if limit == 0 {
      ClearKeepsAgreement(t, u, k.guid, now);
    } else {
      PruneMakesTwins(t, u, k.guid, now);
      var p, q := PruneClient(t, k.guid, now), PruneClient(u, k.guid, now);
      ConvergeKeepsTwins(p, q, k.guid, limit, now);
      var kp, kq := Converge(p, k.guid, limit, now), Converge(q, k.guid, limit, now);
      DecideAgrees(kp.0, kq.0, kp.1, limit, k, now, expiresAt);
    }
  }

  lemma SnapshotAgrees(lib: Library, t: Table, u: Table, guid: string, ns: int)
    requires Agree(t, u, Millis(ns))
    ensures Snapshotted(lib, t, guid, ns).1 == Snapshotted(lib, u, guid, ns).1
    ensures Agree(Snapshotted(lib, t, guid, ns).0, Snapshotted(lib, u, guid, ns).0, Millis(ns))
  {
    if lib.guid(guid).Some? {
      var g, now := lib.guid(guid).value, Millis(ns);
      PruneMakesTwins(t, u, g, now);
      var a, b := Unexpired(RowsOf(t, g), now), Unexpired(RowsOf(u, g), now);
      forall k ensures (k in a <==> k in b) && (k in a ==> a[k] == b[k]) {
        AgreeAt(t, u, now, k);
      }
      assert a == b;
    }
  }

  lemma ReleaseAgrees(lib: Library, t: Table, u: Table, guid: string, ip: string, holder: string, now: int)
    requires Agree(t, u, now)
    ensures Agree(Released(lib, t, guid, ip, holder).0, Released(lib, u, guid, ip, holder).0, now)
  {
    var p, q := Released(lib, t, guid, ip, holder).0, Released(lib, u, guid, ip, holder).0;
    forall r ensures Live(p, r, now) <==> Live(q, r, now) {
      AgreeAt(t, u, now, r);
    }
    forall r | Live(p, r, now) ensures p[r] == q[r] {
      AgreeAt(t, u, now, r);
    }
    AgreeFromRows(p, q, now);
  }

  lemma TransactAgrees(t: Table, u: Table, limits: seq<int>, k: Key, now: int, expiresAt: int)
    requires Agree(t, u, now)
    ensures Transact(t, limits, k, now, expiresAt).1 == Transact(u, limits, k, now, expiresAt).1
    ensures Agree(Transact(t, limits, k, now, expiresAt).0, Transact(u, limits, k, now, expiresAt).0, now)
  {
    if |limits| == 1 && limits[0] >= 0 {
      AdmitAgrees(t, u, limits[0], k, now, expiresAt);
    }
  }

  lemma AcquireAgrees(lib: Library, ttl: int, t: Table, u: Table, limits: seq<int>, guid: string, ip: string,
                      holder: string, ns: int)
    requires Agree(t, u, Millis(ns))
    ensures Acquired(lib, ttl, t, limits, guid, ip, holder, ns).1
      == Acquired(lib, ttl, u, limits, guid, ip, holder, ns).1
    ensures Agree(Acquired(lib, ttl, t, limits, guid, ip, holder, ns).0,
                  Acquired(lib, ttl, u, limits, guid, ip, holder, ns).0, Millis(ns))
  {
    var key := Resolve(lib, guid, ip, holder);
    if ttl > 0 && key.Ok? {
      TransactAgrees(t, u, limits, key.value, Millis(ns), Millis(ns + ttl));
    }
  }

  lemma StepAgrees(lib: Library, ttl: int, t: Table, u: Table, call: Call)
    requires Agree(t, u, Millis(call.ns)) && !call.op.Sweep?
    ensures Step(lib, ttl, t, call).1 == Step(lib, ttl, u, call).1
    ensures Agree(Step(lib, ttl, t, call).0, Step(lib, ttl, u, call).0, Millis(call.ns))
  {
    match call.op {
      case Acquire(limits, guid, ip, holder) => AcquireAgrees(lib, ttl, t, u, limits, guid, ip, holder, call.ns);
      case Release(guid, ip, holder) => ReleaseAgrees(lib, t, u, guid, ip, holder, Millis(call.ns));
      case Snapshot(guid) => SnapshotAgrees(lib, t, u, guid, call.ns);
    }
  }

  lemma {:induction false} AgreeingRunsAnswerAlike(lib: Library, ttl: int, t: Table, u: Table, calls: seq<Call>,
                                                   ns: int)
    requires ClockFrom(calls, ns) && Agree(t, u, Millis(ns))
    ensures Answers(lib, ttl, t, calls) == Answers(lib, ttl, u, WithoutSweeps(calls))
    decreases |calls|
  {
    if calls != [] {
      var call, rest := calls[0], calls[1..];
      AgreeLater(t, u, Millis(ns), Millis(call.ns));
      assert WithoutSweeps(calls) == (if call.op.Sweep? then [] else [call]) + WithoutSweeps(rest);
      if call.op.Sweep? {
        SweepAgrees(t, Millis(call.ns));
        AgreeingRunsAnswerAlike(lib, ttl, Unexpired(t, Millis(call.ns)), u, rest, call.ns);
        assert WithoutSweeps(calls) == WithoutSweeps(rest);
      } else {
        StepAgrees(lib, ttl, t, u, call);
        AgreeingRunsAnswerAlike(lib, ttl, Step(lib, ttl, t, call).0, Step(lib, ttl, u, call).0, rest, call.ns);
      }
    }
  }

  /** Removing every sweep from a run changes no decision and no snapshot. */
  lemma SweepsAreInvisible(lib: Library, ttl: int, t: Table, calls: seq<Call>, ns: int)
    requires ClockFrom(calls, ns)
    ensures Answers(lib, ttl, t, calls) == Answers(lib, ttl, t, WithoutSweeps(calls))
  {
    AgreeingRunsAnswerAlike(lib, ttl, t, t, calls, ns);
  }

  // ---------------------------------------------------------------- the cap over runs

  /** The call works on the rows of client `guid`. */
  predicate Concerns(lib: Library, call: Call, guid: string) {
    match call.op
    case Sweep => false
    case Acquire(_, g, _, _) => lib.guid(g) == Some(guid)
    case Release(g, _, _) => lib.guid(g) == Some(guid)
    case Snapshot(g) => lib.guid(g) == Some(guid)
  }

  lemma TransactIsolated(t: Table, limits: seq<int>, k: Key, now: int, expiresAt: int, guid: string)
    requires k.guid != guid
    ensures RowsOf(Transact(t, limits, k, now, expiresAt).0, guid) == RowsOf(t, guid)
  {
    if |limits| == 1 && limits[0] >= 0 {
      OthersKeepRows(t, limits[0], k, now, expiresAt, guid);
    }
  }

  lemma AcquireIsolated(lib: Library, ttl: int, t: Table, limits: seq<int>, g: string, ip: string, holder: string,
                        ns: int, guid: string)
    requires lib.guid(g) != Some(guid)
    ensures RowsOf(Acquired(lib, ttl, t, limits, g, ip, holder, ns).0, guid) == RowsOf(t, guid)
  {
    var key := Resolve(lib, g, ip, holder);
    if ttl > 0 && key.Ok? {
      TransactIsolated(t, limits, key.value, Millis(ns), Millis(ns + ttl), guid);
    }
  }

  lemma SweepIsolated(t: Table, guid: string, now: int)
    ensures RowsOf(Unexpired(t, now), guid) == Unexpired(RowsOf(t, guid), now)
  {
  }

  /** A call on one client leaves every other client's rows alone; a sweep drops expired ones only. */
  lemma StepIsolated(lib: Library, ttl: int, t: Table, call: Call, guid: string)
    requires !Concerns(lib, call, guid)
    ensures RowsOf(Step(lib, ttl, t, call).0, guid)
         == if call.op.Sweep? then Unexpired(RowsOf(t, guid), Millis(call.ns)) else RowsOf(t, guid)
  {
    match call.op {
      case Acquire(limits, g, ip, holder) => AcquireIsolated(lib, ttl, t, limits, g, ip, holder, call.ns, guid);
      case Release(g, ip, holder) =>
        assert RowsOf(Released(lib, t, g, ip, holder).0, guid) == RowsOf(t, guid);
      case Snapshot(g) =>
        assert RowsOf(Snapshotted(lib, t, g, call.ns).0, guid) == RowsOf(t, guid);
      case Sweep => SweepIsolated(t, guid, Millis(call.ns));
    }
  }

  predicate AcquiresFor(lib: Library, call: Call, guid: string) {
    call.op.Acquire? && Concerns(lib, call, guid)
  }

  lemma StepOnlyShrinks(lib: Library, ttl: int, t: Table, call: Call, guid: string)
    requires !AcquiresFor(lib, call, guid)
    ensures StoredIps(Step(lib, ttl, t, call).0, guid) <= StoredIps(t, guid)
  {
    var t' := Step(lib, ttl, t, call).0;
    if !Concerns(lib, call, guid) {
      StepIsolated(lib, ttl, t, call, guid);
      forall ip | ip in StoredIps(t', guid) ensures ip in StoredIps(t, guid) {
        var k :| k in t' && k.guid == guid && k.ip == ip;
        assert k in RowsOf(t', guid);
        assert k in RowsOf(t, guid);
      }
    }
  }

  lemma {:induction false} RunOnlyShrinks(lib: Library, ttl: int, t: Table, calls: seq<Call>, guid: string)
    requires forall call <- calls :: !AcquiresFor(lib, call, guid)
    ensures StoredIps(After(lib, ttl, t, calls), guid) <= StoredIps(t, guid)
    decreases |calls|
  {
    if calls != [] {
      assert calls[0] in calls;
      StepOnlyShrinks(lib, ttl, t, calls[0], guid);
      RunOnlyShrinks(lib, ttl, Step(lib, ttl, t, calls[0]).0, calls[1..], guid);
    }
  }

  lemma TransactedSlotsAreStored(t: Table, limits: seq<int>, k: Key, now: int, expiresAt: int)
    requires Transact(t, limits, k, now, expiresAt).1.Ok?
    ensures var (t', r) := Transact(t, limits, k, now, expiresAt);
      |StoredIps(t', k.guid)| == r.value.activeSlots <= r.value.limit
  {
    SlotsAreStored(t, limits[0], k, now, expiresAt);
  }

  lemma AcquiredSlotsAreStored(lib: Library, ttl: int, t: Table, limits: seq<int>, guid: string, ip: string,
                               holder: string, ns: int)
    requires Acquired(lib, ttl, t, limits, guid, ip, holder, ns).1.Ok?
    ensures lib.guid(guid).Some?
    ensures var (t', r) := Acquired(lib, ttl, t, limits, guid, ip, holder, ns);
      |StoredIps(t', lib.guid(guid).value)| == r.value.activeSlots <= r.value.limit
  {
    var k := Resolve(lib, guid, ip, holder).value;
    TransactedSlotsAreStored(t, limits, k, Millis(ns), Millis(ns + ttl));
  }

  /**
    After any admission with a positive limit, granted or refused, the client's stored
    addresses are as many as the decision says, within the limit, and stay within it until
    the client's next admission, whatever else happens.
  */
  lemma CapHoldsUntilNextAcquire(lib: Library, ttl: int, t: Table, limits: seq<int>, guid: string, ip: string,
                                 holder: string, ns: int, calls: seq<Call>)
    requires Acquired(lib, ttl, t, limits, guid, ip, holder, ns).1.Ok?
    requires lib.guid(guid).Some? ==> forall call <- calls :: !AcquiresFor(lib, call, lib.guid(guid).value)
    ensures lib.guid(guid).Some?
    ensures var (t', r) := Acquired(lib, ttl, t, limits, guid, ip, holder, ns);
      && |StoredIps(t', lib.guid(guid).value)| == r.value.activeSlots <= r.value.limit
      && |StoredIps(After(lib, ttl, t', calls), lib.guid(guid).value)| <= r.value.activeSlots
  {
    AcquiredSlotsAreStored(lib, ttl, t, limits, guid, ip, holder, ns);
    var t' := Acquired(lib, ttl, t, limits, guid, ip, holder, ns).0;
    RunOnlyShrinks(lib, ttl, t', calls, lib.guid(guid).value);
    SubsetSize(StoredIps(After(lib, ttl, t', calls), lib.guid(guid).value), StoredIps(t', lib.guid(guid).value));
  }
}
