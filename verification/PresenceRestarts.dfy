/**
  Presence over restarts of the core (internal/xray/process.go, RestartXray in
  internal/web/service/xray.go): every new process starts empty and is given the auxiliary
  presence of the one it replaces.
*/
module PresenceRestarts {
  import opened Names
  import opened PresenceState

  /**
    One process: when it took over, and its calls from then on, up to the moment its presence is copied
    for its successor; what it is told between that copy and its end is lost.
  */
  datatype Life = Life(start: int, calls: seq<Call>)

  function RunFrom(s: Sources, calls: seq<Call>, grace: int): Sources {
    if calls == [] then s
    else
      var last := calls[|calls| - 1];
      Apply(RunFrom(s, calls[..|calls| - 1], grace), last.op, last.now, grace)
  }

  /** A new process with the auxiliary presence of an old one. */
  function TakeOver(old_: Sources, start: int, grace: int): Sources {
    Apply(EMPTY, Restore(old_.aux, old_.auxTags), start, grace)
  }

  /** The sources of the last of several processes. */
  function Survive(lives: seq<Life>, grace: int): Sources {
    if lives == [] then EMPTY
    else
      var n := |lives| - 1;
      RunFrom(TakeOver(Survive(lives[..n], grace), lives[n].start, grace), lives[n].calls, grace)
  }

  /** All calls of all processes; to the auxiliary sources a restart is a pruning. */
  function History(lives: seq<Life>): seq<Call> {
    if lives == [] then []
    else
      var n := |lives| - 1;
      History(lives[..n]) + [Call(lives[n].start, Prune)] + lives[n].calls
  }

  predicate SameAux(s: Sources, t: Sources) {
    s.aux == t.aux && s.auxTags == t.auxTags
  }

  predicate SameCore(s: Sources, t: Sources) {
    s.exact == t.exact && s.xray == t.xray && s.legacy == t.legacy && s.xrayTags == t.xrayTags
  }

  lemma CallKeepsSameness(s: Sources, t: Sources, op: Op, now: int, grace: int)
    requires !op.Restore?
    ensures SameAux(s, t) ==> SameAux(Apply(s, op, now, grace), Apply(t, op, now, grace))
    ensures SameCore(s, t) ==> SameCore(Apply(s, op, now, grace), Apply(t, op, now, grace))
  {
  }

  lemma FrontHasNoRestore(calls: seq<Call>)
    requires NoRestore(calls) && calls != []
    ensures NoRestore(calls[..|calls| - 1]) && !calls[|calls| - 1].op.Restore?
  {
    assert calls[|calls| - 1] in calls && forall c <- calls[..|calls| - 1] :: c in calls;
  }

  lemma RunConcatLast(before: seq<Call>, calls: seq<Call>, grace: int)
    requires calls != []
    ensures var last := calls[|calls| - 1];
      Run(before + calls, grace) == Apply(Run(before + calls[..|calls| - 1], grace), last.op, last.now, grace)
  {
    assert (before + calls)[..|before + calls| - 1] == before + calls[..|calls| - 1];
  }

  lemma TakeOverPrunes(s: Sources, start: int, grace: int)
    ensures SameAux(TakeOver(s, start, grace), Apply(s, Prune, start, grace))
    ensures SameCore(TakeOver(s, start, grace), EMPTY)
  {
    assert Fresh(map[], start, grace) == map[];
  }

  /** One process after another: calls act alike on equal sources. */
  lemma {:induction false} CallsKeepSameness(s: Sources, before: seq<Call>, calls: seq<Call>, grace: int)
    requires NoRestore(calls) && SameAux(s, Run(before, grace))
    ensures SameAux(RunFrom(s, calls, grace), Run(before + calls, grace))
    decreases |calls|
  {
    if calls == [] {
      assert before + calls == before;
    } else {
      var front, last := calls[..|calls| - 1], calls[|calls| - 1];
      FrontHasNoRestore(calls);
      CallsKeepSameness(s, before, front, grace);
      RunConcatLast(before, calls, grace);
      CallKeepsSameness(RunFrom(s, front, grace), Run(before + front, grace), last.op, last.now, grace);
    }
  }

  lemma {:induction false} CallsOwnCore(s: Sources, calls: seq<Call>, grace: int)
    requires NoRestore(calls) && SameCore(s, EMPTY)
    ensures SameCore(RunFrom(s, calls, grace), Run(calls, grace))
    decreases |calls|
  {
    if calls != [] {
      var front, last := calls[..|calls| - 1], calls[|calls| - 1];
      FrontHasNoRestore(calls);
      CallsOwnCore(s, front, grace);
      CallKeepsSameness(RunFrom(s, front, grace), Run(front, grace), last.op, last.now, grace);
    }
  }

  ghost predicate NoOtherRestore(lives: seq<Life>) {
    forall life <- lives :: NoRestore(life.calls)
  }

  /** The last process has the auxiliary presence of one process that had lived through everything. */
  lemma {:induction false} AuxiliaryIsCarried(lives: seq<Life>, grace: int)
    requires NoOtherRestore(lives)
    ensures SameAux(Survive(lives, grace), Run(History(lives), grace))
    decreases |lives|
  {
    if lives != [] {
      var n := |lives| - 1;
      var past, life := History(lives[..n]), lives[n];
      assert life in lives && forall l <- lives[..n] :: l in lives;
      AuxiliaryIsCarried(lives[..n], grace);
      var s, pruned := Survive(lives[..n], grace), past + [Call(life.start, Prune)];
      TakeOverPrunes(s, life.start, grace);
      CallKeepsSameness(s, Run(past, grace), Prune, life.start, grace);
      assert pruned[..|pruned| - 1] == past;
      CallsKeepSameness(TakeOver(s, life.start, grace), pruned, life.calls, grace);
    }
  }

  /** Its own presence is that of its own calls. */
  lemma CoreStartsAnew(lives: seq<Life>, grace: int)
    requires NoOtherRestore(lives) && lives != []
    ensures SameCore(Survive(lives, grace), Run(lives[|lives| - 1].calls, grace))
  {
    var n := |lives| - 1;
    var life, s := lives[n], Survive(lives[..n], grace);
    assert life in lives;
    TakeOverPrunes(s, life.start, grace);
    CallsOwnCore(TakeOver(s, life.start, grace), life.calls, grace);
  }

  lemma {:induction false} HistoryHasNoRestore(lives: seq<Life>)
    requires NoOtherRestore(lives)
    ensures NoRestore(History(lives))
    decreases |lives|
  {
    if lives != [] {
      var n := |lives| - 1;
      assert lives[n] in lives && forall l <- lives[..n] :: l in lives;
      HistoryHasNoRestore(lives[..n]);
    }
  }

  lemma {:induction false} LastCallsAreInOrder(lives: seq<Life>)
    requires lives != [] && ClockForward(History(lives))
    ensures ClockForward(lives[|lives| - 1].calls)
  {
    var n := |lives| - 1;
    var h, calls := History(lives), lives[n].calls;
    var k := |h| - |calls|;
    assert forall i | 0 <= i < |calls| :: h[k + i] == calls[i];
    forall i | 0 < i < |calls| ensures calls[i - 1].now <= calls[i].now {
      assert h[k + i - 1].now <= h[k + i].now;
    }
  }

  /**
    Who is online after any number of restarts: names whose latest auxiliary report, to whichever
    process, is younger than the grace, and what the last process itself was told.
  */
  lemma OnlineAcrossRestarts(lives: seq<Life>, grace: int, name: string)
    requires grace > 0 && lives != [] && NoOtherRestore(lives) && ClockForward(History(lives))
    ensures name in OnlineNames(Survive(lives, grace)) <==>
      || Recent(History(lives), Aux, name, grace)
      || (match LatestExact(lives[|lives| - 1].calls)
          case Some(exact) => name in exact
          case None => Recent(lives[|lives| - 1].calls, Legacy, name, grace))
  {
    var h, calls, s := History(lives), lives[|lives| - 1].calls, Survive(lives, grace);
    assert lives[|lives| - 1] in lives;
    AuxiliaryIsCarried(lives, grace);
    CoreStartsAnew(lives, grace);
    HistoryHasNoRestore(lives);
    LastCallsAreInOrder(lives);
    TrimmedSource(h, grace, Aux, name);
    OnlineOfCore(s, calls, grace, name);
  }

  lemma OnlineOfCore(s: Sources, calls: seq<Call>, grace: int, name: string)
    requires grace > 0 && ClockForward(calls) && NoRestore(calls) && SameCore(s, Run(calls, grace))
    ensures name in Trimmed(if s.exact then s.xray else s.legacy.Keys) <==>
      match LatestExact(calls)
      case Some(exact) => name in exact
      case None => Recent(calls, Legacy, name, grace)
  {
    ExactTrace(calls, grace);
    if LatestExact(calls).Some? {
      TrimmedExact(calls, grace, name);
    } else {
      TrimmedSource(calls, grace, Legacy, name);
    }
  }

  /** Inbound activity across restarts. */
  lemma TagsAcrossRestarts(lives: seq<Life>, grace: int, tag: string)
    requires grace > 0 && lives != [] && NoOtherRestore(lives) && ClockForward(History(lives))
    ensures tag in ActiveTags(Survive(lives, grace)) <==>
      Recent(lives[|lives| - 1].calls, XrayTag, tag, grace) || Recent(History(lives), AuxTag, tag, grace)
  {
    var h, calls := History(lives), lives[|lives| - 1].calls;
    assert lives[|lives| - 1] in lives;
    AuxiliaryIsCarried(lives, grace);
    CoreStartsAnew(lives, grace);
    HistoryHasNoRestore(lives);
    LastCallsAreInOrder(lives);
    TrimmedSource(h, grace, AuxTag, tag);
    TrimmedSource(calls, grace, XrayTag, tag);
  }

  /** Right after a restart: exactly the names whose latest auxiliary report is younger than the grace. */
  lemma OnlineRightAfterRestart(calls: seq<Call>, start: int, grace: int, name: string)
    requires grace > 0 && NoRestore(calls) && ClockForward(calls)
    requires calls != [] ==> calls[|calls| - 1].now <= start
    ensures name in OnlineNames(TakeOver(Run(calls, grace), start, grace)) <==>
      LatestReport(calls, Aux, name).Some? && start - LatestReport(calls, Aux, name).value < grace
  {
    var h := calls + [Call(start, Prune)];
    assert h[..|h| - 1] == calls;
    forall i | 0 < i < |h| ensures h[i - 1].now <= h[i].now {
      assert i < |calls| ==> h[i - 1] == calls[i - 1] && h[i] == calls[i];
    }
    TakeOverPrunes(Run(calls, grace), start, grace);
    TrimmedSource(h, grace, Aux, name);
  }
}
