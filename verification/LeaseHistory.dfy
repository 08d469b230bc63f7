/**
  Where the rows of the lease table come from (internal/iplimit/coordinator.go): over any run of calls a
  row's creation time is the time of the admission that began its stay, so renewing a lease never costs
  seniority, and a lower limit keeps the addresses that came first.
*/
module LeaseHistory {
  import opened Wrappers
  import opened Ordering
  import opened LeaseTable
  import opened Coordinator
  import opened LeaseRuns

  /** The call is an admission for exactly this row. */
  predicate Asks(lib: Library, call: Call, k: Key) {
    && call.op.Acquire?
    && lib.guid(call.op.guid) == Some(k.guid) && lib.ip(call.op.ip) == Some(k.ip)
    && lib.trim(call.op.holder) == k.holder
    && k.holder != "" && |k.holder| <= 128
  }

  /** The admission is granted under a limit, so that it leaves a row. */
  predicate Grants(answer: Answer) {
    answer.Admission? && answer.decision.Ok? && answer.decision.value.allowed && answer.decision.value.limit > 0
  }

  function Then(lib: Library, ttl: int, t: Table, call: Call): Table {
    Step(lib, ttl, t, call).0
  }

  function Answered(lib: Library, ttl: int, t: Table, call: Call): Answer {
    Step(lib, ttl, t, call).1
  }

  // ---------------------------------------------------------------- one call

  lemma AdmittedRow(t: Table, limit: nat, k: Key, now: int, expiresAt: int, r: Key)
    requires r in Admit(t, limit, k, now, expiresAt).0
    ensures var (t', d) := Admit(t, limit, k, now, expiresAt);
      if r == k then
        && d.allowed && limit > 0 && d.limit == limit
        && t'[k] == Row(expiresAt, if Live(t, k, now) then t[k].createdAt else now, now)
      else r in t && t'[r] == t[r]
  {
    if limit > 0 {
      var p := PruneClient(t, k.guid, now);
      var (kept, slots) := Converge(p, k.guid, limit, now);
      ConvergeShrinks(p, k.guid, limit, now);
      if r == k {
        AdmittedKey(kept, slots, limit, k, now, expiresAt);
        KeptWhenActive(t, p, k, limit, now);
      }
    }
  }

  /** A live row of an address that stays active is not evicted. */
  lemma KeptWhenActive(t: Table, p: Table, k: Key, limit: nat, now: int)
    requires p == PruneClient(t, k.guid, now)
    ensures var kept := Converge(p, k.guid, limit, now).0;
      k in kept <==> Live(t, k, now) && (k.ip in ActiveIps(kept, k.guid, now))
    ensures var kept := Converge(p, k.guid, limit, now).0;
      k in kept ==> kept[k] == t[k]
    ensures var (kept, slots) := Converge(p, k.guid, limit, now);
      Live(t, k, now) && k !in kept ==> slots >= limit
  {
    var (kept, slots) := Converge(p, k.guid, limit, now);
    ConvergeKeepsOldest(p, k.guid, limit, now, k);
    ConvergeShrinks(p, k.guid, limit, now);
    if k in kept {
      assert k in p && p[k].expiresAt > now;
    }
    if k.ip in ActiveIps(kept, k.guid, now) {
      var r :| r in kept && r.guid == k.guid && kept[r].expiresAt > now && r.ip == k.ip;
      ConvergeKeepsOldest(p, k.guid, limit, now, r);
    }
    if Live(t, k, now) {
      assert k in p;
      assert k.ip in ActiveIps(p, k.guid, now);
    }
  }

  lemma AdmittedKey(kept: Table, slots: nat, limit: nat, k: Key, now: int, expiresAt: int)
    requires k in Decide(kept, slots, limit, k, now, expiresAt).0
    requires k in kept ==> k.ip in ActiveIps(kept, k.guid, now)
    ensures var (t', d) := Decide(kept, slots, limit, k, now, expiresAt);
      && d.allowed && d.limit == limit && t'[k] == Row(expiresAt, if k in kept then kept[k].createdAt else now, now)
      && (k.ip in ActiveIps(kept, k.guid, now) || slots < limit)
  {
  }

  lemma AcquiredRow(lib: Library, ttl: int, t: Table, limits: seq<int>, guid: string, ip: string, holder: string,
                    ns: int, r: Key)
    requires r in Acquired(lib, ttl, t, limits, guid, ip, holder, ns).0
    ensures var (t', d) := Acquired(lib, ttl, t, limits, guid, ip, holder, ns);
      if Resolve(lib, guid, ip, holder) == Ok(r) && d.Ok? then
        && d.value.allowed && d.value.limit > 0
        && t'[r] == Row(Millis(ns + ttl), if Live(t, r, Millis(ns)) then t[r].createdAt else Millis(ns), Millis(ns))
      else r in t && t'[r] == t[r]
  {
    var key := Resolve(lib, guid, ip, holder);
    if ttl > 0 && key.Ok? && |limits| == 1 && limits[0] >= 0 {
      AdmittedRow(t, limits[0], key.value, Millis(ns), Millis(ns + ttl), r);
    }
  }

  /** What one call does to a row that is there afterwards: it grants it, or leaves it as it was. */
  lemma RowAfterCall(lib: Library, ttl: int, t: Table, call: Call, k: Key)
    requires k in Then(lib, ttl, t, call)
    ensures var now, r := Millis(call.ns), Then(lib, ttl, t, call)[k];
      if Asks(lib, call, k) && Answered(lib, ttl, t, call).decision.Ok? then
        && Grants(Answered(lib, ttl, t, call))
        && r == Row(Millis(call.ns + ttl), if Live(t, k, now) then t[k].createdAt else now, now)
      else k in t && r == t[k]
  {
    if call.op.Acquire? {
      AcquiredRow(lib, ttl, t, call.op.limits, call.op.guid, call.op.ip, call.op.holder, call.ns, k);
    }
  }

  // ---------------------------------------------------------------- runs of calls

  /** The table before the i-th call. */
  function At(lib: Library, ttl: int, t: Table, calls: seq<Call>, i: nat): Table
    requires i <= |calls|
  {
    After(lib, ttl, t, calls[..i])
  }

  lemma {:induction false} AfterSnoc(lib: Library, ttl: int, t: Table, calls: seq<Call>, call: Call)
    ensures After(lib, ttl, t, calls + [call]) == Then(lib, ttl, After(lib, ttl, t, calls), call)
    decreases |calls|
  {
    if calls == [] {
      assert [call][1..] == [] && calls + [call] == [call];
    } else {
      assert (calls + [call])[1..] == calls[1..] + [call];
      AfterSnoc(lib, ttl, Then(lib, ttl, t, calls[0]), calls[1..], call);
    }
  }

  lemma AtNext(lib: Library, ttl: int, t: Table, calls: seq<Call>, i: nat)
    requires i < |calls|
    ensures At(lib, ttl, t, calls, i + 1) == Then(lib, ttl, At(lib, ttl, t, calls, i), calls[i])
  {
    assert calls[..i + 1] == calls[..i] + [calls[i]];
    AfterSnoc(lib, ttl, t, calls[..i], calls[i]);
  }

  /** The i-th call of the run grants the row. */
  predicate GrantedAt(lib: Library, ttl: int, t: Table, calls: seq<Call>, i: nat, k: Key)
    requires i < |calls|
  {
    Asks(lib, calls[i], k) && Grants(Answered(lib, ttl, At(lib, ttl, t, calls, i), calls[i]))
  }

  predicate LiveAt(lib: Library, ttl: int, t: Table, calls: seq<Call>, i: nat, k: Key)
    requires i < |calls|
  {
    Live(At(lib, ttl, t, calls, i), k, Millis(calls[i].ns))
  }

  /** From the i-th call on the row is always there, and alive whenever it is granted again. */
  ghost predicate Unbroken(lib: Library, ttl: int, t: Table, calls: seq<Call>, i: nat, k: Key)
    requires i <= |calls|
  {
    && (forall j | i <= j <= |calls| :: k in At(lib, ttl, t, calls, j))
    && (forall j | i <= j < |calls| && GrantedAt(lib, ttl, t, calls, j, k) :: LiveAt(lib, ttl, t, calls, j, k))
  }

  /** The stay of the row that lasts to the end of the run began with the i-th call. */
  ghost predicate BeganWith(lib: Library, ttl: int, t: Table, calls: seq<Call>, i: nat, k: Key)
    requires i < |calls|
  {
    && GrantedAt(lib, ttl, t, calls, i, k) && !LiveAt(lib, ttl, t, calls, i, k)
    && Unbroken(lib, ttl, t, calls, i + 1, k)
  }

  lemma RunPrefix(lib: Library, ttl: int, t: Table, calls: seq<Call>, n: nat, i: nat)
    requires i <= n <= |calls|
    ensures At(lib, ttl, t, calls[..n], i) == At(lib, ttl, t, calls, i)
  {
    assert calls[..n][..i] == calls[..i];
  }

  lemma UnbrokenLonger(lib: Library, ttl: int, t: Table, calls: seq<Call>, i: nat, k: Key)
    requires calls != [] && i < |calls| && Unbroken(lib, ttl, t, calls[..|calls| - 1], i, k)
    requires k in At(lib, ttl, t, calls, |calls|)
    requires GrantedAt(lib, ttl, t, calls, |calls| - 1, k) ==> LiveAt(lib, ttl, t, calls, |calls| - 1, k)
    ensures Unbroken(lib, ttl, t, calls, i, k)
  {
    var n := |calls| - 1;
    forall j | i <= j <= |calls| ensures k in At(lib, ttl, t, calls, j) {
      if j <= n {
        RunPrefix(lib, ttl, t, calls, n, j);
      }
    }
    forall j | i <= j < |calls| && GrantedAt(lib, ttl, t, calls, j, k) ensures LiveAt(lib, ttl, t, calls, j, k) {
      if j < n {
        RunPrefix(lib, ttl, t, calls, n, j);
        assert GrantedAt(lib, ttl, t, calls[..n], j, k);
      }
    }
  }

  /**
    A row's creation time is the time of the admission that began its stay, or that of the row in the first
    table if it has been there ever since.
  */
  lemma {:induction false} CreatedOnArrival(lib: Library, ttl: int, t: Table, calls: seq<Call>, k: Key)
    requires k in After(lib, ttl, t, calls)
    ensures var r := After(lib, ttl, t, calls)[k];
      || (Unbroken(lib, ttl, t, calls, 0, k) && k in t && r.createdAt == t[k].createdAt)
      || exists i | 0 <= i < |calls| :: BeganWith(lib, ttl, t, calls, i, k) && r.createdAt == Millis(calls[i].ns)
    decreases |calls|
  {
    assert calls[..|calls|] == calls;
    if calls == [] {
      assert At(lib, ttl, t, calls, 0) == t;
    } else {
      var n := |calls| - 1;
      var front := calls[..n];
      var before := After(lib, ttl, t, front);
      AtNext(lib, ttl, t, calls, n);
      RunPrefix(lib, ttl, t, calls, n, n);
      RowAfterCall(lib, ttl, before, calls[n], k);
      if GrantedAt(lib, ttl, t, calls, n, k) && !LiveAt(lib, ttl, t, calls, n, k) {
        BeginsLast(lib, ttl, t, calls, k);
      } else {
        CreatedOnArrival(lib, ttl, t, front, k);
        StayGoesOn(lib, ttl, t, calls, k);
      }
    }
  }

  lemma BeginsLast(lib: Library, ttl: int, t: Table, calls: seq<Call>, k: Key)
    requires calls != [] && k in After(lib, ttl, t, calls)
    requires GrantedAt(lib, ttl, t, calls, |calls| - 1, k) && !LiveAt(lib, ttl, t, calls, |calls| - 1, k)
    ensures BeganWith(lib, ttl, t, calls, |calls| - 1, k)
  {
    assert calls[..|calls|] == calls;
  }

  lemma StayGoesOn(lib: Library, ttl: int, t: Table, calls: seq<Call>, k: Key)
    requires calls != [] && k in After(lib, ttl, t, calls)
    requires GrantedAt(lib, ttl, t, calls, |calls| - 1, k) ==> LiveAt(lib, ttl, t, calls, |calls| - 1, k)
    ensures var front := calls[..|calls| - 1];
      && (Unbroken(lib, ttl, t, front, 0, k) ==> Unbroken(lib, ttl, t, calls, 0, k))
      && forall i | 0 <= i < |front| && BeganWith(lib, ttl, t, front, i, k) :: BeganWith(lib, ttl, t, calls, i, k)
  {
    var n := |calls| - 1;
    var front := calls[..n];
    assert calls[..|calls|] == calls;
    if Unbroken(lib, ttl, t, front, 0, k) {
      UnbrokenLonger(lib, ttl, t, calls, 0, k);
    }
    forall i | 0 <= i < |front| && BeganWith(lib, ttl, t, front, i, k) ensures BeganWith(lib, ttl, t, calls, i, k) {
      UnbrokenLonger(lib, ttl, t, calls, i + 1, k);
      RunPrefix(lib, ttl, t, calls, n, i);
    }
  }

  ghost predicate NeverGranted(lib: Library, ttl: int, t: Table, calls: seq<Call>, i: nat, k: Key) {
    forall j | i <= j < |calls| :: !GrantedAt(lib, ttl, t, calls, j, k)
  }

  /** The i-th call is the latest to grant the row. */
  ghost predicate LatestGrant(lib: Library, ttl: int, t: Table, calls: seq<Call>, i: nat, k: Key)
    requires i < |calls|
  {
    GrantedAt(lib, ttl, t, calls, i, k) && NeverGranted(lib, ttl, t, calls, i + 1, k)
  }

  /** A row lasts until the time to live after the latest admission that granted it. */
  lemma {:induction false} LastsSinceLatestGrant(lib: Library, ttl: int, t: Table, calls: seq<Call>, k: Key)
    requires k in After(lib, ttl, t, calls)
    ensures var r := After(lib, ttl, t, calls)[k];
      || (NeverGranted(lib, ttl, t, calls, 0, k) && k in t && r.expiresAt == t[k].expiresAt
        && r.updatedAt == t[k].updatedAt)
      || exists i | 0 <= i < |calls| ::
           && LatestGrant(lib, ttl, t, calls, i, k)
           && r.expiresAt == Millis(calls[i].ns + ttl) && r.updatedAt == Millis(calls[i].ns)
    decreases |calls|
  {
    if calls != [] {
      var n := |calls| - 1;
      var front := calls[..n];
      assert calls[..|calls|] == calls;
      AtNext(lib, ttl, t, calls, n);
      RunPrefix(lib, ttl, t, calls, n, n);
      RowAfterCall(lib, ttl, After(lib, ttl, t, front), calls[n], k);
      if GrantedAt(lib, ttl, t, calls, n, k) {
        assert LatestGrant(lib, ttl, t, calls, n, k);
      } else {
        LastsSinceLatestGrant(lib, ttl, t, front, k);
        NoLaterGrant(lib, ttl, t, calls, k);
      }
    }
  }

  lemma NoLaterGrant(lib: Library, ttl: int, t: Table, calls: seq<Call>, k: Key)
    requires calls != [] && !GrantedAt(lib, ttl, t, calls, |calls| - 1, k)
    ensures var front := calls[..|calls| - 1];
      && (NeverGranted(lib, ttl, t, front, 0, k) ==> NeverGranted(lib, ttl, t, calls, 0, k))
      && forall i | 0 <= i < |front| && LatestGrant(lib, ttl, t, front, i, k) :: LatestGrant(lib, ttl, t, calls, i, k)
  {
    var front := calls[..|calls| - 1];
    if NeverGranted(lib, ttl, t, front, 0, k) {
      NeverLonger(lib, ttl, t, calls, 0, k);
    }
    forall i | 0 <= i < |front| && LatestGrant(lib, ttl, t, front, i, k) ensures LatestGrant(lib, ttl, t, calls, i, k) {
      LatestLonger(lib, ttl, t, calls, i, k);
    }
  }

  lemma LatestLonger(lib: Library, ttl: int, t: Table, calls: seq<Call>, i: nat, k: Key)
    requires i + 1 < |calls| && !GrantedAt(lib, ttl, t, calls, |calls| - 1, k)
    requires LatestGrant(lib, ttl, t, calls[..|calls| - 1], i, k)
    ensures LatestGrant(lib, ttl, t, calls, i, k)
  {
    SameGrant(lib, ttl, t, calls, |calls| - 1, i, k);
    GrantAndNever(lib, ttl, t, calls, i, k);
  }

  lemma GrantAndNever(lib: Library, ttl: int, t: Table, calls: seq<Call>, i: nat, k: Key)
    requires i + 1 < |calls| && !GrantedAt(lib, ttl, t, calls, |calls| - 1, k)
    requires GrantedAt(lib, ttl, t, calls, i, k) && NeverGranted(lib, ttl, t, calls[..|calls| - 1], i + 1, k)
    ensures LatestGrant(lib, ttl, t, calls, i, k)
  {
    NeverLonger(lib, ttl, t, calls, i + 1, k);
  }

  lemma SameGrant(lib: Library, ttl: int, t: Table, calls: seq<Call>, n: nat, i: nat, k: Key)
    requires i < n <= |calls|
    ensures GrantedAt(lib, ttl, t, calls[..n], i, k) <==> GrantedAt(lib, ttl, t, calls, i, k)
  {
    RunPrefix(lib, ttl, t, calls, n, i);
  }

  lemma NeverLonger(lib: Library, ttl: int, t: Table, calls: seq<Call>, i: nat, k: Key)
    requires calls != [] && !GrantedAt(lib, ttl, t, calls, |calls| - 1, k)
    requires NeverGranted(lib, ttl, t, calls[..|calls| - 1], i, k)
    ensures NeverGranted(lib, ttl, t, calls, i, k)
  {
    forall j | i <= j < |calls| ensures !GrantedAt(lib, ttl, t, calls, j, k) {
      if j < |calls| - 1 {
        RunPrefix(lib, ttl, t, calls, |calls| - 1, j);
        assert !GrantedAt(lib, ttl, t, calls[..|calls| - 1], j, k);
      }
    }
  }

  // ---------------------------------------------------------------- seniority

  /** A slot is as old as its oldest live holder. */
  lemma AgesAreEarliest(t: Table, guid: string, now: int, ip: string)
    ensures ip in Ages(t, guid, now) <==> exists k :: Live(t, k, now) && k.guid == guid && k.ip == ip
    ensures ip in Ages(t, guid, now) ==>
      && (exists k :: Live(t, k, now) && k.guid == guid && k.ip == ip && t[k].createdAt == Ages(t, guid, now)[ip])
      && forall k | Live(t, k, now) && k.guid == guid && k.ip == ip :: Ages(t, guid, now)[ip] <= t[k].createdAt
  {
    if k :| Live(t, k, now) && k.guid == guid && k.ip == ip {
      assert ip in ActiveIps(t, guid, now);
    }
    if ip in Ages(t, guid, now) {
      var least := Least(Creations(t, guid, ip, now));
      assert least in Creations(t, guid, ip, now);
      var k :| k in t && k.guid == guid && k.ip == ip && t[k].expiresAt > now && Stamp(t[k].createdAt) == least;
      assert Live(t, k, now);
      forall r | Live(t, r, now) && r.guid == guid && r.ip == ip ensures Ages(t, guid, now)[ip] <= t[r].createdAt {
        assert Stamp(t[r].createdAt) in Creations(t, guid, ip, now);
      }
    }
  }

  /** The live addresses of a client that came before this one, the smaller address first at one instant. */
  function Seniors(t: Table, guid: string, now: int, ip: string): set<string>
    requires ip in Ages(t, guid, now)
  {
    var ages := Ages(t, guid, now);
    set y | y in ages && (ages[y] < ages[ip] || (ages[y] == ages[ip] && Below(y, ip)))
  }

  predicate Concerned(lib: Library, call: Call, guid: string) {
    call.op.Acquire? && lib.guid(call.op.guid) == Some(guid)
  }

  lemma ConvergedRows(t: Table, guid: string, limit: nat, now: int, r: Key)
    requires r.guid == guid
    ensures r in Converge(PruneClient(t, guid, now), guid, limit, now).0 <==>
      Live(t, r, now) && |Seniors(t, guid, now, r.ip)| < limit
  {
    var p := PruneClient(t, guid, now);
    PrunedRowsAreLive(t, guid, now);
    ConvergeKeepsOldest(p, guid, limit, now, r);
    AgesAreEarliest(t, guid, now, r.ip);
    assert r in p <==> Live(t, r, now);
    if Live(t, r, now) {
      SeniorsAreAhead(t, p, guid, now, r.ip);
    }
  }

  lemma SeniorsAreAhead(t: Table, p: Table, guid: string, now: int, ip: string)
    requires Ages(t, guid, now) == Ages(p, guid, now) && ip in Ages(t, guid, now)
    ensures Seniors(t, guid, now, ip) == Ahead(Ages(p, guid, now), ip)
  {
  }

  lemma DecideOtherRows(kept: Table, slots: nat, limit: nat, k: Key, now: int, expiresAt: int, r: Key)
    requires r != k
    ensures r in Decide(kept, slots, limit, k, now, expiresAt).0 <==> r in kept
  {
  }

  lemma AdmissionKeeps(t: Table, limit: nat, k: Key, now: int, expiresAt: int, r: Key)
    requires limit > 0 && r != k && r.guid == k.guid
    ensures var t' := Admit(t, limit, k, now, expiresAt).0;
      r in t' <==> Live(t, r, now) && |Seniors(t, k.guid, now, r.ip)| < limit
  {
    var (kept, slots) := Converge(PruneClient(t, k.guid, now), k.guid, limit, now);
    ConvergedRows(t, k.guid, limit, now, r);
    DecideOtherRows(kept, slots, limit, k, now, expiresAt, r);
  }

  /** Under a limit, an admission keeps, of the client's other rows, exactly those of the addresses that came first. */
  lemma FirstComersStay(lib: Library, ttl: int, t: Table, call: Call, guid: string, r: Key)
    requires Concerned(lib, call, guid) && Answered(lib, ttl, t, call).decision.Ok?
    requires Answered(lib, ttl, t, call).decision.value.limit > 0 && r.guid == guid && !Asks(lib, call, r)
    ensures var now := Millis(call.ns);
      && (r in Then(lib, ttl, t, call) <==>
            Live(t, r, now) && |Seniors(t, guid, now, r.ip)| < Answered(lib, ttl, t, call).decision.value.limit)
      && (r in Then(lib, ttl, t, call) ==> Then(lib, ttl, t, call)[r] == t[r])
  {
    var op := call.op;
    var k := Resolve(lib, op.guid, op.ip, op.holder).value;
    AcquiredKeeps(lib, ttl, t, op.limits, op.guid, op.ip, op.holder, call.ns, k, r);
    if r in Then(lib, ttl, t, call) {
      RowAfterCall(lib, ttl, t, call, r);
    }
  }

  lemma AcquiredKeeps(lib: Library, ttl: int, t: Table, limits: seq<int>, guid: string, ip: string, holder: string,
                      ns: int, k: Key, r: Key)
    requires Resolve(lib, guid, ip, holder) == Ok(k) && k.guid == r.guid && k != r
    requires Acquired(lib, ttl, t, limits, guid, ip, holder, ns).1.Ok?
    requires Acquired(lib, ttl, t, limits, guid, ip, holder, ns).1.value.limit > 0
    ensures var (t', d) := Acquired(lib, ttl, t, limits, guid, ip, holder, ns);
      r in t' <==> Live(t, r, Millis(ns)) && |Seniors(t, r.guid, Millis(ns), r.ip)| < d.value.limit
  {
    TransactedKeeps(t, limits, k, Millis(ns), Millis(ns + ttl), r);
  }

  lemma TransactedKeeps(t: Table, limits: seq<int>, k: Key, now: int, expiresAt: int, r: Key)
    requires Transact(t, limits, k, now, expiresAt).1.Ok? && Transact(t, limits, k, now, expiresAt).1.value.limit > 0
    requires r.guid == k.guid && r != k
    ensures var (t', d) := Transact(t, limits, k, now, expiresAt);
      r in t' <==> Live(t, r, now) && |Seniors(t, k.guid, now, r.ip)| < d.value.limit
  {
    AdmitReportsLimit(t, limits[0], k, now, expiresAt);
    AdmissionKeeps(t, limits[0], k, now, expiresAt, r);
  }

  lemma AdmitReportsLimit(t: Table, limit: nat, k: Key, now: int, expiresAt: int)
    ensures Admit(t, limit, k, now, expiresAt).1.limit == limit
  {
    SlotsAreStored(t, limit, k, now, expiresAt);
  }

  lemma SameCreationsSameAges(t: Table, u: Table, guid: string, now: int)
    requires forall k: Key | k.guid == guid :: Live(t, k, now) <==> Live(u, k, now)
    requires forall k: Key | k.guid == guid && Live(t, k, now) && Live(u, k, now) :: t[k].createdAt == u[k].createdAt
    ensures Ages(t, guid, now) == Ages(u, guid, now)
  {
    forall ip ensures ip in Ages(t, guid, now) <==> ip in Ages(u, guid, now) {
      AgesAreEarliest(t, guid, now, ip);
      AgesAreEarliest(u, guid, now, ip);
    }
    forall ip | ip in Ages(t, guid, now) ensures Ages(t, guid, now)[ip] == Ages(u, guid, now)[ip] {
      AgesAreEarliest(t, guid, now, ip);
      AgesAreEarliest(u, guid, now, ip);
    }
  }

  lemma UpsertLiveKeepsAges(t: Table, k: Key, now: int, expiresAt: int)
    requires Live(t, k, now) && expiresAt > now
    ensures Ages(Upsert(t, k, expiresAt, now), k.guid, now) == Ages(t, k.guid, now)
  {
    SameCreationsSameAges(t, Upsert(t, k, expiresAt, now), k.guid, now);
  }

  lemma DecideRenews(kept: Table, slots: nat, limit: nat, k: Key, now: int, expiresAt: int)
    requires k in kept && kept[k].expiresAt > now && Decide(kept, slots, limit, k, now, expiresAt).1.allowed
    ensures Decide(kept, slots, limit, k, now, expiresAt).0 == Upsert(kept, k, expiresAt, now)
  {
  }

  /** The slots of the second table are the first ones of the first table, with their ages and in their order. */
  ghost predicate OrderIsKept(t: Table, u: Table, guid: string, now: int) {
    var ages, ages' := Ages(t, guid, now), Ages(u, guid, now);
    && (forall ip | ip in ages' :: ip in ages && ages'[ip] == ages[ip])
    && |ages'| <= |ages| && Oldest(ages') == Oldest(ages)[..|ages'|]
  }

  /** Renewing a lease never changes the order of slots: those that stay keep their ages and their places. */
  lemma RenewalKeepsOrder(t: Table, limit: nat, k: Key, now: int, expiresAt: int)
    requires limit > 0 && Live(t, k, now) && expiresAt > now && Admit(t, limit, k, now, expiresAt).1.allowed
    ensures OrderIsKept(t, Admit(t, limit, k, now, expiresAt).0, k.guid, now)
  {
    RenewedAges(t, limit, k, now, expiresAt);
    ConvergedOrder(t, k.guid, limit, now);
  }

  lemma RenewedAges(t: Table, limit: nat, k: Key, now: int, expiresAt: int)
    requires limit > 0 && Live(t, k, now) && expiresAt > now && Admit(t, limit, k, now, expiresAt).1.allowed
    ensures Ages(Admit(t, limit, k, now, expiresAt).0, k.guid, now)
         == Ages(Converge(PruneClient(t, k.guid, now), k.guid, limit, now).0, k.guid, now)
  {
    var (kept, slots) := Converge(PruneClient(t, k.guid, now), k.guid, limit, now);
    AllowedIsKept(t, limit, k, now, expiresAt);
    DecideRenews(kept, slots, limit, k, now, expiresAt);
    UpsertLiveKeepsAges(kept, k, now, expiresAt);
  }

  lemma ConvergedOrder(t: Table, guid: string, limit: nat, now: int)
    ensures OrderIsKept(t, Converge(PruneClient(t, guid, now), guid, limit, now).0, guid, now)
  {
    var p := PruneClient(t, guid, now);
    PrunedRowsAreLive(t, guid, now);
    ConvergedAges(p, guid, limit, now);
    PrefixAges(p, Converge(p, guid, limit, now).0, guid, limit, now);
  }

  lemma AllowedIsKept(t: Table, limit: nat, k: Key, now: int, expiresAt: int)
    requires limit > 0 && Live(t, k, now) && Admit(t, limit, k, now, expiresAt).1.allowed
    ensures var kept := Converge(PruneClient(t, k.guid, now), k.guid, limit, now).0;
      k in kept && kept[k].expiresAt > now
  {
    KeptWhenActive(t, PruneClient(t, k.guid, now), k, limit, now);
  }

  lemma PrefixAges(p: Table, kept: Table, guid: string, limit: nat, now: int)
    requires kept == Converge(p, guid, limit, now).0
    ensures forall ip | ip in Ages(kept, guid, now) ::
      ip in Ages(p, guid, now) && Ages(kept, guid, now)[ip] == Ages(p, guid, now)[ip]
  {
    forall ip | ip in Ages(kept, guid, now)
      ensures ip in Ages(p, guid, now) && Ages(kept, guid, now)[ip] == Ages(p, guid, now)[ip]
    {
      AgesAreEarliest(kept, guid, now, ip);
      var r :| Live(kept, r, now) && r.guid == guid && r.ip == ip;
      ConvergeKeepsOldest(p, guid, limit, now, r);
      forall k: Key | k.guid == guid && k.ip == ip
        ensures Live(kept, k, now) <==> Live(p, k, now)
        ensures Live(kept, k, now) ==> kept[k] == p[k]
      {
        ConvergeKeepsOldest(p, guid, limit, now, k);
      }
      SameHoldersSameAge(p, kept, guid, now, ip);
    }
  }

  lemma SameHoldersSameAge(t: Table, u: Table, guid: string, now: int, ip: string)
    requires ip in Ages(u, guid, now)
    requires forall k: Key | k.guid == guid && k.ip == ip :: Live(u, k, now) <==> Live(t, k, now)
    requires forall k: Key | k.guid == guid && k.ip == ip && Live(u, k, now) && Live(t, k, now) :: u[k] == t[k]
    ensures ip in Ages(t, guid, now) && Ages(u, guid, now)[ip] == Ages(t, guid, now)[ip]
  {
    AgesAreEarliest(t, guid, now, ip);
    AgesAreEarliest(u, guid, now, ip);
  }

  lemma AskedIsResolved(lib: Library, call: Call, k: Key)
    requires Asks(lib, call, k)
    ensures Resolve(lib, call.op.guid, call.op.ip, call.op.holder) == Ok(k)
  {
  }

  lemma TransactedKeepsOrder(t: Table, limits: seq<int>, k: Key, now: int, expiresAt: int)
    requires Transact(t, limits, k, now, expiresAt).1.Ok?
    requires Transact(t, limits, k, now, expiresAt).1.value.allowed
    requires Transact(t, limits, k, now, expiresAt).1.value.limit > 0 && Live(t, k, now) && expiresAt > now
    ensures OrderIsKept(t, Transact(t, limits, k, now, expiresAt).0, k.guid, now)
  {
    AdmitReportsLimit(t, limits[0], k, now, expiresAt);
    RenewalKeepsOrder(t, limits[0], k, now, expiresAt);
  }

  lemma AcquiredKeepsOrder(lib: Library, ttl: int, t: Table, limits: seq<int>, guid: string, ip: string,
                           holder: string, ns: int, k: Key)
    requires Resolve(lib, guid, ip, holder) == Ok(k) && ttl >= MILLI && Live(t, k, Millis(ns))
    requires Acquired(lib, ttl, t, limits, guid, ip, holder, ns).1.Ok?
    requires var d := Acquired(lib, ttl, t, limits, guid, ip, holder, ns).1.value; d.allowed && d.limit > 0
    ensures OrderIsKept(t, Acquired(lib, ttl, t, limits, guid, ip, holder, ns).0, k.guid, Millis(ns))
  {
    TransactedKeepsOrder(t, limits, k, Millis(ns), Millis(ns + ttl));
  }

  /** So says the call that renews: a live row, granted again for a millisecond or more. */
  lemma RenewingCallKeepsOrder(lib: Library, ttl: int, t: Table, call: Call, k: Key)
    requires Asks(lib, call, k) && Grants(Answered(lib, ttl, t, call)) && ttl >= 1_000_000
    requires Live(t, k, Millis(call.ns))
    ensures OrderIsKept(t, Then(lib, ttl, t, call), k.guid, Millis(call.ns))
  {
    AskedIsResolved(lib, call, k);
    AcquiredKeepsOrder(lib, ttl, t, call.op.limits, call.op.guid, call.op.ip, call.op.holder, call.ns, k);
  }

  // ---------------------------------------------------------------- the answer of one admission

  /** Which requests are refused an answer, and why: the first thing wrong with them. */
  lemma ErrorsAreExact(lib: Library, ttl: int, t: Table, call: Call)
    requires call.op.Acquire?
    ensures var r, op := Answered(lib, ttl, t, call).decision, call.op;
      var holder := lib.trim(op.holder);
      && (r == Err(InvalidTtl) <==> ttl <= 0)
      && (r == Err(InvalidGuid) <==> ttl > 0 && lib.guid(op.guid).None?)
      && (r == Err(InvalidIp) <==> ttl > 0 && lib.guid(op.guid).Some? && lib.ip(op.ip).None?)
      && (r == Err(InvalidHolder) <==>
            ttl > 0 && lib.guid(op.guid).Some? && lib.ip(op.ip).Some? && (holder == "" || |holder| > 128))
      && (r.Ok? || r.error in {ClientNotFound, AmbiguousClient, InvalidLimit} ==>
            ttl > 0 && exists k :: Asks(lib, call, k))
      && (r == Err(ClientNotFound) ==> |op.limits| == 0) && (r == Err(AmbiguousClient) ==> |op.limits| > 1)
      && (r == Err(InvalidLimit) ==> |op.limits| == 1 && op.limits[0] < 0)
      && (r.Ok? ==> |op.limits| == 1 && op.limits[0] >= 0)
      && (r.Err? ==> Then(lib, ttl, t, call) == t)
  {
    var op := call.op;
    if Resolve(lib, op.guid, op.ip, op.holder).Ok? {
      assert Asks(lib, call, Resolve(lib, op.guid, op.ip, op.holder).value);
    }
  }

  /** An address the client already uses, and keeps under the limit. */
  predicate Seated(t: Table, k: Key, now: int, limit: nat) {
    k.ip in Ages(t, k.guid, now) && |Seniors(t, k.guid, now, k.ip)| < limit
  }

  /** The answer of an admission under `limit`, among the `n` addresses the client uses. */
  function AnswerOf(limit: nat, n: nat, seated: bool, expiresAt: int): Decision {
    if limit == 0 then Decision(true, Unlimited, 0, 0, false, 0)
    else if seated then Decision(true, ExistingSlot, limit, if n < limit then n else limit, true, expiresAt)
    else if n < limit then Decision(true, NewSlot, limit, n + 1, false, expiresAt)
    else Decision(false, LimitReached, limit, limit, false, 0)
  }

  lemma AdmittedAnswer(t: Table, limit: nat, k: Key, now: int, expiresAt: int)
    ensures Admit(t, limit, k, now, expiresAt).1
         == AnswerOf(limit, |Ages(t, k.guid, now)|, Seated(t, k, now, limit), expiresAt)
  {
    if limit > 0 {
      var p := PruneClient(t, k.guid, now);
      PrunedRowsAreLive(t, k.guid, now);
      ConvergedAges(p, k.guid, limit, now);
      ActiveIffSeated(t, k, limit, now);
    }
  }

  lemma TransactedAnswer(t: Table, limits: seq<int>, k: Key, now: int, expiresAt: int)
    requires |limits| == 1 && limits[0] >= 0
    ensures Transact(t, limits, k, now, expiresAt).1
         == Ok(AnswerOf(limits[0], |Ages(t, k.guid, now)|, Seated(t, k, now, limits[0]), expiresAt))
  {
    AdmittedAnswer(t, limits[0], k, now, expiresAt);
  }

  lemma ActiveIffSeated(t: Table, k: Key, limit: nat, now: int)
    ensures k.ip in ActiveIps(Converge(PruneClient(t, k.guid, now), k.guid, limit, now).0, k.guid, now)
       <==> Seated(t, k, now, limit)
  {
    var p := PruneClient(t, k.guid, now);
    PrunedRowsAreLive(t, k.guid, now);
    SurvivorIsActive(p, k.guid, limit, now, k.ip);
    if k.ip in Ages(t, k.guid, now) {
      SeniorsAreAhead(t, p, k.guid, now, k.ip);
    }
  }

  /**
    What an admission answers, field by field: without a limit, yes, and no slots are kept; else yes on the
    client's own slots that fit the limit, or on a new one while there is room.
  */
  lemma AnswerIsExact(lib: Library, ttl: int, t: Table, limit: nat, guid: string, ip: string, holder: string,
                      ns: int, k: Key)
    requires ttl > 0 && lib.guid(guid) == Some(k.guid) && lib.ip(ip) == Some(k.ip) && lib.trim(holder) == k.holder
    requires 1 <= |k.holder| <= 128
    ensures Acquired(lib, ttl, t, [limit], guid, ip, holder, ns).1
         == Ok(AnswerOf(limit, |Ages(t, k.guid, Millis(ns))|, Seated(t, k, Millis(ns), limit), Millis(ns + ttl)))
  {
    assert Resolve(lib, guid, ip, holder) == Ok(k);
    TransactedAnswer(t, [limit], k, Millis(ns), Millis(ns + ttl));
  }

  /** What the other calls do, row by row. */
  lemma OtherCallsAreExact(lib: Library, ttl: int, t: Table, call: Call, r: Key)
    requires !call.op.Acquire?
    ensures r in Then(lib, ttl, t, call) <==> r in t && Spared(lib, call, r, t[r].expiresAt)
    ensures r in Then(lib, ttl, t, call) ==> Then(lib, ttl, t, call)[r] == t[r]
  {
  }

  /** A call other than an admission leaves the row, given when it expires. */
  predicate Spared(lib: Library, call: Call, r: Key, expiresAt: int) {
    match call.op
    case Release(guid, ip, holder) =>
      !(lib.guid(guid) == Some(r.guid) && lib.ip(ip) == Some(r.ip) && lib.trim(holder) == r.holder
        && r.holder != "" && |r.holder| <= 128)
    case Snapshot(guid) => !(lib.guid(guid) == Some(r.guid) && expiresAt <= Millis(call.ns))
    case Sweep => expiresAt > Millis(call.ns)
    case Acquire(_, _, _, _) => true
  }
}
