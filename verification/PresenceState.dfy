/**
  Presence as values: the four grace-based sources and the exact set, what each operation
  does to them, and what a whole run of operations leaves online
  (internal/xray/process.go).
*/
module PresenceState {
  import opened Wrappers
  import opened Names

  /** Last activity by raw name, in milliseconds. */
  type Seen = map<string, int>

  datatype Sources = Sources(
    exact: bool, xray: set<string>, legacy: Seen, aux: Seen, xrayTags: Seen, auxTags: Seen)

  const EMPTY := Sources(false, {}, map[], map[], map[], map[])

  /** updateLastSeenEmails and updateLastSeenTags. */
  function Report(m: Seen, raw: set<string>, now: int): Seen {
    map k | k in m.Keys + Trimmed(raw) :: if k in Trimmed(raw) then now else m[k]
  }

  predicate Stale(seenAt: int, now: int, grace: int) {
    grace <= 0 || now - seenAt >= grace
  }

  /** pruneLastSeen. */
  function Fresh(m: Seen, now: int, grace: int): Seen {
    map k | k in m && !Stale(m[k], now, grace) :: m[k]
  }

  /** A sighting counts for less than the grace period, and never without one. */
  lemma FreshIff(m: Seen, now: int, grace: int, name: string)
    ensures name in Fresh(m, now, grace) <==> name in m && grace > 0 && now - m[name] < grace
    ensures name in Fresh(m, now, grace) ==> Fresh(m, now, grace)[name] == m[name]
  {
  }

  /** Who is online: the exact set once latched, else the legacy reports; auxiliary runtimes always. */
  function OnlineNames(s: Sources): set<string> {
    Trimmed(if s.exact then s.xray else s.legacy.Keys) + Trimmed(s.aux.Keys)
  }

  function ActiveTags(s: Sources): set<string> {
    Trimmed(s.xrayTags.Keys) + Trimmed(s.auxTags.Keys)
  }

  // ---------------------------------------------------------------- operations

  datatype Op =
    | Replace(emails: set<string>)                       // Replace-, Commit- and ClearXrayOnlineSnapshot
    | RefreshLegacy(emails: set<string>, tags: set<string>)
    | RefreshAux(emails: set<string>, tags: set<string>)
    | Prune
    | Restore(lastOnline: Seen, inboundLastActive: Seen)

  function Apply(s: Sources, op: Op, now: int, grace: int): Sources {
    match op
    case Replace(emails) =>
      Sources(true, Trimmed(emails), map[], Fresh(s.aux, now, grace), Fresh(s.xrayTags, now, grace),
              Fresh(s.auxTags, now, grace))
    case RefreshLegacy(emails, tags) =>
      Sources(s.exact, s.xray,
              if s.exact then map[] else Fresh(Report(s.legacy, emails, now), now, grace),
              Fresh(s.aux, now, grace), Fresh(Report(s.xrayTags, tags, now), now, grace), Fresh(s.auxTags, now, grace))
    case RefreshAux(emails, tags) =>
      Sources(s.exact, s.xray,
              if s.exact then s.legacy else Fresh(s.legacy, now, grace),
              Fresh(Report(s.aux, emails, now), now, grace), Fresh(s.xrayTags, now, grace),
              Fresh(Report(s.auxTags, tags, now), now, grace))
    case Prune =>
      Sources(s.exact, s.xray,
              if s.exact then s.legacy else Fresh(s.legacy, now, grace),
              Fresh(s.aux, now, grace), Fresh(s.xrayTags, now, grace), Fresh(s.auxTags, now, grace))
    case Restore(lastOnline, inboundLastActive) =>
      if lastOnline == map[] && inboundLastActive == map[] then s
      else s.(aux := Fresh(if lastOnline == map[] then s.aux else lastOnline, now, grace),
              auxTags := Fresh(if inboundLastActive == map[] then s.auxTags else inboundLastActive, now, grace))
  }

  datatype Call = Call(now: int, op: Op)

  /** The sources after a run, oldest call first. */
  function Run(calls: seq<Call>, grace: int): Sources {
    if calls == [] then EMPTY
    else
      var last := calls[|calls| - 1];
      Apply(Run(calls[..|calls| - 1], grace), last.op, last.now, grace)
  }

  // ---------------------------------------------------------------- the latch

  /** Exact mode is on exactly when some call committed a snapshot, and then stays on. */
  lemma {:induction false} LatchIsOneWay(calls: seq<Call>, grace: int)
    ensures Run(calls, grace).exact <==> exists i :: 0 <= i < |calls| && calls[i].op.Replace?
  {
    if calls != [] {
      var n := |calls| - 1;
      LatchIsOneWay(calls[..n], grace);
      if exists i :: 0 <= i < |calls| && calls[i].op.Replace? {
        var i :| 0 <= i < |calls| && calls[i].op.Replace?;
        if i < n {
          assert calls[..n][i].op.Replace?;
        }
      }
      if Run(calls[..n], grace).exact {
        var i :| 0 <= i < n && calls[..n][i].op.Replace?;
        assert calls[i].op.Replace?;
      }
    }
  }

  /** Once latched, no traffic report puts anyone online: only the exact set and auxiliary runtimes do. */
  lemma LegacyCannotAdd(s: Sources, emails: set<string>, tags: set<string>, now: int, grace: int)
    requires s.exact
    ensures OnlineNames(Apply(s, RefreshLegacy(emails, tags), now, grace)) == OnlineNames(Apply(s, Prune, now, grace))
    ensures OnlineNames(Apply(s, RefreshLegacy(emails, tags), now, grace)) <= OnlineNames(s)
  {
  }

  // ---------------------------------------------------------------- lazy pruning refines the trace

  datatype Source = Legacy | Aux | XrayTag | AuxTag

  function SeenIn(s: Sources, source: Source): Seen {
    match source
    case Legacy => s.legacy
    case Aux => s.aux
    case XrayTag => s.xrayTags
    case AuxTag => s.auxTags
  }

  /** The names a call reports to a source. */
  function Reported(op: Op, source: Source): set<string> {
    match (source, op)
    case (Legacy, RefreshLegacy(emails, _)) => Trimmed(emails)
    case (Aux, RefreshAux(emails, _)) => Trimmed(emails)
    case (XrayTag, RefreshLegacy(_, tags)) => Trimmed(tags)
    case (AuxTag, RefreshAux(_, tags)) => Trimmed(tags)
    case _ => {}
  }

  /** The time of the latest report of a name to a source. */
  function LatestReport(calls: seq<Call>, source: Source, name: string): Option<int> {
    if calls == [] then None
    else
      var last := calls[|calls| - 1];
      if name in Reported(last.op, source) then Some(last.now)
      else LatestReport(calls[..|calls| - 1], source, name)
  }

  /** The latest report is younger than the grace at the latest call. */
  predicate Recent(calls: seq<Call>, source: Source, name: string, grace: int) {
    calls != [] && LatestReport(calls, source, name).Some? &&
    calls[|calls| - 1].now - LatestReport(calls, source, name).value < grace
  }

  predicate ClockForward(calls: seq<Call>) {
    forall i | 0 < i < |calls| :: calls[i - 1].now <= calls[i].now
  }

  predicate NoRestore(calls: seq<Call>) {
    forall call <- calls :: !call.op.Restore?
  }

  /** Every call but a restore reports to each source and prunes it; a latch empties the legacy one for good. */
  lemma SourceStep(s: Sources, op: Op, now: int, grace: int, source: Source)
    requires !op.Restore?
    requires source.Legacy? && s.exact ==> s.legacy == map[]
    ensures SeenIn(Apply(s, op, now, grace), source)
         == if source.Legacy? && Apply(s, op, now, grace).exact then map[]
            else Fresh(Report(SeenIn(s, source), Reported(op, source), now), now, grace)
  {
    ReportNobody(SeenIn(s, source), now);
    match source {
      case Legacy => LegacyStep(s, op, now, grace);
      case Aux => AuxStep(s, op, now, grace);
      case XrayTag => TagStep(s, op, now, grace);
      case AuxTag => AuxStep(s, op, now, grace);
    }
  }

  lemma ReportNobody(seen: Seen, now: int)
    ensures Report(seen, {}, now) == seen
  {
  }

  lemma LegacyStep(s: Sources, op: Op, now: int, grace: int)
    requires !op.Restore? && (s.exact ==> s.legacy == map[])
    ensures var t := Apply(s, op, now, grace);
      t.legacy == if t.exact then map[] else Fresh(Report(s.legacy, Reported(op, Legacy), now), now, grace)
  {
    ReportNobody(s.legacy, now);
    if op.RefreshLegacy? {
      TrimmedAgain(op.emails);
    }
  }

  lemma AuxStep(s: Sources, op: Op, now: int, grace: int)
    requires !op.Restore?
    ensures var t := Apply(s, op, now, grace);
      && t.aux == Fresh(Report(s.aux, Reported(op, Aux), now), now, grace)
      && t.auxTags == Fresh(Report(s.auxTags, Reported(op, AuxTag), now), now, grace)
  {
    ReportNobody(s.aux, now);
    ReportNobody(s.auxTags, now);
    if op.RefreshAux? {
      TrimmedAgain(op.emails);
      TrimmedAgain(op.tags);
    }
  }

  lemma TagStep(s: Sources, op: Op, now: int, grace: int)
    requires !op.Restore?
    ensures Apply(s, op, now, grace).xrayTags == Fresh(Report(s.xrayTags, Reported(op, XrayTag), now), now, grace)
  {
    ReportNobody(s.xrayTags, now);
    if op.RefreshLegacy? {
      TrimmedAgain(op.tags);
    }
  }

  lemma PrefixClock(calls: seq<Call>)
    requires calls != [] && ClockForward(calls) && NoRestore(calls)
    ensures ClockForward(calls[..|calls| - 1]) && NoRestore(calls[..|calls| - 1])
    ensures !calls[|calls| - 1].op.Restore?
    ensures |calls| > 1 ==> calls[|calls| - 2].now <= calls[|calls| - 1].now
  {
    assert forall i | 0 < i < |calls| :: calls[i - 1].now <= calls[i].now;
    var n := |calls| - 1;
    forall i | 0 < i < n ensures calls[..n][i - 1].now <= calls[..n][i].now {
      assert calls[i - 1].now <= calls[i].now;
    }
    assert calls[n] in calls;
  }

  /**
    Pruning lazily, at whichever operation comes next, keeps exactly the names whose latest
    report is recent at that operation.
  */
  lemma {:induction false} SourceTrace(calls: seq<Call>, grace: int, source: Source, name: string)
    requires grace > 0 && ClockForward(calls) && NoRestore(calls)
    ensures source.Legacy? && Run(calls, grace).exact ==> Run(calls, grace).legacy == map[]
    ensures !(source.Legacy? && Run(calls, grace).exact) ==>
      && (name in SeenIn(Run(calls, grace), source) <==> Recent(calls, source, name, grace))
      && (name in SeenIn(Run(calls, grace), source) ==>
            SeenIn(Run(calls, grace), source)[name] == LatestReport(calls, source, name).value)
  {
    if calls != [] {
      var n := |calls| - 1;
      PrefixClock(calls);
      SourceTrace(calls[..n], grace, source, name);
      var s, last := Run(calls[..n], grace), calls[n];
      SourceStep(s, last.op, last.now, grace, source);
      ReportedIsTrimmed(last.op, source, name);
      assert n > 0 ==> calls[..n][n - 1] == calls[n - 1];
      assert name in Reported(last.op, source) ==> LatestReport(calls, source, name) == Some(last.now);
      assert name !in Reported(last.op, source) ==>
        LatestReport(calls, source, name) == LatestReport(calls[..n], source, name);
    }
  }

  lemma ReportedIsTrimmed(op: Op, source: Source, name: string)
    ensures name in Trimmed(Reported(op, source)) <==> name in Reported(op, source)
  {
    match (source, op) {
      case (Legacy, RefreshLegacy(emails, _)) => TrimmedAgain(emails);
      case (Aux, RefreshAux(emails, _)) => TrimmedAgain(emails);
      case (XrayTag, RefreshLegacy(_, tags)) => TrimmedAgain(tags);
      case (AuxTag, RefreshAux(_, tags)) => TrimmedAgain(tags);
      case _ =>
    }
  }

  /** The exact set of the latest snapshot. */
  function LatestExact(calls: seq<Call>): Option<set<string>> {
    if calls == [] then None
    else if calls[|calls| - 1].op.Replace? then Some(Trimmed(calls[|calls| - 1].op.emails))
    else LatestExact(calls[..|calls| - 1])
  }

  lemma {:induction false} ExactTrace(calls: seq<Call>, grace: int)
    requires NoRestore(calls)
    ensures Run(calls, grace).exact <==> LatestExact(calls).Some?
    ensures Run(calls, grace).exact ==> Run(calls, grace).xray == LatestExact(calls).value
  {
    if calls != [] {
      assert calls[|calls| - 1] in calls;
      ExactTrace(calls[..|calls| - 1], grace);
    }
  }

  lemma {:induction false} ReportsAreTrimmed(calls: seq<Call>, source: Source, name: string)
    requires LatestReport(calls, source, name).Some?
    ensures Trim(name) == name != ""
  {
    var op := calls[|calls| - 1].op;
    if name in Reported(op, source) {
      ReportedIsTrimmed(op, source, name);
      var raw :| raw in Reported(op, source) && Trim(raw) != "" && Trim(raw) == name;
      TrimIsIdempotent(raw);
    } else {
      ReportsAreTrimmed(calls[..|calls| - 1], source, name);
    }
  }

  /** The trimmed keys of a source are its keys. */
  lemma TrimmedSource(calls: seq<Call>, grace: int, source: Source, name: string)
    requires grace > 0 && ClockForward(calls) && NoRestore(calls)
    requires !(source.Legacy? && Run(calls, grace).exact)
    ensures name in Trimmed(SeenIn(Run(calls, grace), source).Keys) <==> Recent(calls, source, name, grace)
  {
    var m := SeenIn(Run(calls, grace), source);
    SourceTrace(calls, grace, source, name);
    if name in m {
      ReportsAreTrimmed(calls, source, name);
    }
    forall k | k in m ensures Trim(k) == k {
      SourceTrace(calls, grace, source, k);
      ReportsAreTrimmed(calls, source, k);
    }
  }

  lemma TrimmedExact(calls: seq<Call>, grace: int, name: string)
    requires NoRestore(calls) && LatestExact(calls).Some?
    ensures name in Trimmed(LatestExact(calls).value) <==> name in LatestExact(calls).value
  {
    if calls[|calls| - 1].op.Replace? {
      TrimmedAgain(calls[|calls| - 1].op.emails);
    } else {
      assert calls[|calls| - 1] in calls;
      assert forall c | c in calls[..|calls| - 1] :: c in calls;
      TrimmedExact(calls[..|calls| - 1], grace, name);
    }
  }

  /**
    Who is online after any run: before the first exact snapshot, the names some source
    reported within the grace; after it, the latest snapshot and the recent auxiliary names.
  */
  lemma OnlineTrace(calls: seq<Call>, grace: int, name: string)
    requires grace > 0 && ClockForward(calls) && NoRestore(calls)
    ensures name in OnlineNames(Run(calls, grace)) <==>
      || Recent(calls, Aux, name, grace)
      || (match LatestExact(calls)
          case Some(exact) => name in exact
          case None => Recent(calls, Legacy, name, grace))
  {
    ExactTrace(calls, grace);
    TrimmedSource(calls, grace, Aux, name);
    if LatestExact(calls).Some? {
      TrimmedExact(calls, grace, name);
    } else {
      TrimmedSource(calls, grace, Legacy, name);
    }
  }

  /** Inbound activity has no exact mode: it is always the recent tags of both runtimes. */
  lemma TagsTrace(calls: seq<Call>, grace: int, tag: string)
    requires grace > 0 && ClockForward(calls) && NoRestore(calls)
    ensures tag in ActiveTags(Run(calls, grace)) <==>
      Recent(calls, XrayTag, tag, grace) || Recent(calls, AuxTag, tag, grace)
  {
    TrimmedSource(calls, grace, XrayTag, tag);
    TrimmedSource(calls, grace, AuxTag, tag);
  }
}
