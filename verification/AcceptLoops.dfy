/**
  Admission of connections by the shared-port front (internal/frontmux/manager.go): one
  accept loop per group, a semaphore per group, one global semaphore, and handlers that
  give back the global slot before the group slot.

  The protocol is a state machine over its atomic steps; the results hold for every
  interleaving of loops and handlers.
*/
module AcceptLoops {
  import opened Sequences
  import opened Wrappers

  const GLOBAL_MAX: nat := 8192

  function Sum(limits: seq<nat>): nat {
    if limits == [] then 0 else Sum(limits[..|limits| - 1]) + limits[|limits| - 1]
  }

  function Capacity(limits: seq<nat>): nat {
    if Sum(limits) <= GLOBAL_MAX then Sum(limits) else GLOBAL_MAX
  }

  lemma {:induction false} SumOfPrefix(limits: seq<nat>, n: nat)
    requires n <= |limits|
    ensures Sum(limits[..n]) <= Sum(limits)
    decreases |limits| - n
  {
    if n < |limits| {
      assert limits[..n + 1][..n] == limits[..n];
      SumOfPrefix(limits, n + 1);
    } else {
      assert limits[..n] == limits;
    }
  }

  /** The capacity of the global semaphore that Start creates. */
  method GlobalLimit(limits: seq<nat>) returns (globalLimit: nat)
    ensures globalLimit == if Sum(limits) <= 8192 then Sum(limits) else 8192
    ensures globalLimit == Capacity(limits)
  {
    globalLimit := 0;
    for i := 0 to |limits|
      invariant globalLimit == Sum(limits[..i]) < GLOBAL_MAX
    {
      assert limits[..i + 1][..i] == limits[..i];
      globalLimit := globalLimit + limits[i];
      if globalLimit >= GLOBAL_MAX {
        SumOfPrefix(limits, i + 1);
        return GLOBAL_MAX;
      }
    }
    assert limits[..|limits|] == limits;
  }

  // ---------------------------------------------------------------- the protocol

  type Conn = nat

  /** Where a connection is between Accept and the end of its handler. */
  datatype Phase =
    | Accepted         // by the loop, no slot yet
    | HoldsGroup       // group slot taken, global slot not tried
    | BackingOut       // global capacity reached, group slot about to be given back
    | Handling         // both slots, handler running
    | ReleasedGlobal   // handler finished, global slot given back

  datatype Place = Place(group: nat, phase: Phase)

  datatype State = State(groupTokens: seq<nat>, globalTokens: nat, conns: map<Conn, Place>)

  datatype Action =
    | Accept(group: nat, conn: Conn)
    | TakeGroup(conn: Conn)
    | TakeGlobal(conn: Conn)
    | GiveUp(conn: Conn)
    | Finish(conn: Conn)
    | Leave(conn: Conn)

  function Init(limits: seq<nat>): State {
    State(seq(|limits|, _ => 0), 0, map[])
  }

  /** The accept loop of a group handles one connection at a time. */
  predicate LoopBusy(s: State, group: nat) {
    exists c | c in s.conns :: s.conns[c].group == group && s.conns[c].phase in {Accepted, HoldsGroup, BackingOut}
  }

  predicate At(s: State, c: Conn, phase: Phase) {
    c in s.conns && s.conns[c].phase == phase && s.conns[c].group < |s.groupTokens|
  }

  function Move(s: State, c: Conn, phase: Phase): map<Conn, Place>
    requires c in s.conns
  {
    s.conns[c := s.conns[c].(phase := phase)]
  }

  /** One atomic step; None when it is not enabled. A full semaphore closes the connection. */
  function Do(limits: seq<nat>, s: State, a: Action): Option<State> {
    match a
    case Accept(g, c) =>
      if g < |limits| && c !in s.conns && !LoopBusy(s, g) then
        Some(s.(conns := s.conns[c := Place(g, Accepted)]))
      else None
    case TakeGroup(c) =>
      if !At(s, c, Accepted) || s.conns[c].group >= |limits| then None
      else
        var g := s.conns[c].group;
        if s.groupTokens[g] < limits[g] then
          Some(s.(groupTokens := s.groupTokens[g := s.groupTokens[g] + 1], conns := Move(s, c, HoldsGroup)))
        else Some(s.(conns := s.conns - {c}))
    case TakeGlobal(c) =>
      if !At(s, c, HoldsGroup) then None
      else if s.globalTokens < Capacity(limits) then
        Some(s.(globalTokens := s.globalTokens + 1, conns := Move(s, c, Handling)))
      else Some(s.(conns := Move(s, c, BackingOut)))
    case GiveUp(c) =>
      if At(s, c, BackingOut) && s.groupTokens[s.conns[c].group] > 0 then
        var g := s.conns[c].group;
        Some(s.(groupTokens := s.groupTokens[g := s.groupTokens[g] - 1], conns := s.conns - {c}))
      else None
    case Finish(c) =>
      if At(s, c, Handling) && s.globalTokens > 0 then
        Some(s.(globalTokens := s.globalTokens - 1, conns := Move(s, c, ReleasedGlobal)))
      else None
    case Leave(c) =>
      if At(s, c, ReleasedGlobal) && s.groupTokens[s.conns[c].group] > 0 then
        var g := s.conns[c].group;
        Some(s.(groupTokens := s.groupTokens[g := s.groupTokens[g] - 1], conns := s.conns - {c}))
      else None
  }

  /** The state after a run, if every step was enabled. */
  function Exec(limits: seq<nat>, s: State, actions: seq<Action>): Option<State>
    decreases |actions|
  {
    if actions == [] then Some(s)
    else match Do(limits, s, actions[0])
      case None => None
      case Some(s') => Exec(limits, s', actions[1..])
  }

  // ---------------------------------------------------------------- invariant

  /** Connections of a group that hold one of its slots. */
  function Holders(s: State, group: nat): set<Conn> {
    set c | c in s.conns && s.conns[c].group == group && s.conns[c].phase != Accepted
  }

  /** Connections with a running handler. */
  function Live(s: State): set<Conn> {
    set c | c in s.conns && s.conns[c].phase == Handling
  }

  function LiveIn(s: State, group: nat): set<Conn> {
    set c | c in s.conns && s.conns[c].group == group && s.conns[c].phase == Handling
  }

  ghost predicate Inv(limits: seq<nat>, s: State) {
    && |s.groupTokens| == |limits|
    && (forall c | c in s.conns :: s.conns[c].group < |limits|)
    && (forall g | 0 <= g < |limits| :: s.groupTokens[g] == |Holders(s, g)| <= limits[g])
    && s.globalTokens == |Live(s)| <= Capacity(limits)
  }

  lemma InitInv(limits: seq<nat>)
    ensures Inv(limits, Init(limits))
  {
    var s := Init(limits);
    assert forall g | 0 <= g < |limits| :: Holders(s, g) == {};
    assert Live(s) == {};
  }

  lemma HoldersChange(s: State, s': State, c: Conn)
    requires s'.conns - {c} == s.conns - {c}
    ensures forall g :: Holders(s', g) - {c} == Holders(s, g) - {c}
    ensures Live(s') - {c} == Live(s) - {c}
  {
    assert forall d | d != c :: (d in s'.conns <==> d in s'.conns - {c}) && (d in s.conns <==> d in s.conns - {c});
    assert forall d | d in s.conns && d != c :: s'.conns[d] == (s'.conns - {c})[d] == (s.conns - {c})[d] == s.conns[d];
  }

  /** A set that loses or gains one element changes size by one. */
  lemma SizeChange(a: set<Conn>, b: set<Conn>, c: Conn)
    requires a - {c} == b - {c}
    ensures |b| == |a| + (if c in b then 1 else 0) - (if c in a then 1 else 0)
  {
    if c in a { assert a == (a - {c}) + {c}; } else { assert a == a - {c}; }
    if c in b { assert b == (b - {c}) + {c}; } else { assert b == b - {c}; }
  }

  lemma ActionMovesOne(limits: seq<nat>, s: State, a: Action, s': State)
    requires Do(limits, s, a) == Some(s')
    ensures s'.conns - {a.conn} == s.conns - {a.conn}
  {
  }

  lemma StepKeepsInv(limits: seq<nat>, s: State, a: Action, s': State)
    requires Inv(limits, s) && Do(limits, s, a) == Some(s')
    ensures Inv(limits, s')
  {
    var c := a.conn;
    ActionMovesOne(limits, s, a, s');
    HoldersChange(s, s', c);
    SizeChange(Live(s), Live(s'), c);
    forall g | 0 <= g < |limits| ensures s'.groupTokens[g] == |Holders(s', g)| <= limits[g] {
      SizeChange(Holders(s, g), Holders(s', g), c);
    }
  }

  lemma {:induction false} RunKeepsInv(limits: seq<nat>, s: State, actions: seq<Action>)
    requires Inv(limits, s) && Exec(limits, s, actions).Some?
    ensures Inv(limits, Exec(limits, s, actions).value)
    decreases |actions|
  {
    if actions != [] {
      StepKeepsInv(limits, s, actions[0], Do(limits, s, actions[0]).value);
      RunKeepsInv(limits, Do(limits, s, actions[0]).value, actions[1..]);
    }
  }

  // ---------------------------------------------------------------- results

  /** Under every interleaving: no group above its limit, all groups together within min(sum, 8192). */
  lemma HandlersAreBounded(limits: seq<nat>, actions: seq<Action>)
    requires Exec(limits, Init(limits), actions).Some?
    ensures var s := Exec(limits, Init(limits), actions).value;
      && (forall g | 0 <= g < |limits| :: |LiveIn(s, g)| <= limits[g])
      && |Live(s)| <= Sum(limits) && |Live(s)| <= 8192
  {
    InitInv(limits);
    RunKeepsInv(limits, Init(limits), actions);
    var s := Exec(limits, Init(limits), actions).value;
    forall g | 0 <= g < |limits| ensures |LiveIn(s, g)| <= limits[g] {
      SubsetSize(LiveIn(s, g), Holders(s, g));
    }
  }

  predicate InLoop(s: State, c: Conn, group: nat) {
    c in s.conns && s.conns[c].group == group && s.conns[c].phase in {Accepted, HoldsGroup, BackingOut}
  }

  ghost predicate OneEach(s: State) {
    forall g: nat, c, d :: InLoop(s, c, g) && InLoop(s, d, g) ==> c == d
  }

  lemma StepKeepsOneEach(limits: seq<nat>, s: State, a: Action, s': State)
    requires OneEach(s) && Do(limits, s, a) == Some(s')
    ensures OneEach(s')
  {
    forall g: nat, c, d | InLoop(s', c, g) && InLoop(s', d, g) ensures c == d {
      if a.Accept? && g == a.group {
        assert !LoopBusy(s, g);
        assert c != a.conn ==> InLoop(s, c, g);
        assert d != a.conn ==> InLoop(s, d, g);
      } else {
        assert InLoop(s, c, g) && InLoop(s, d, g);
      }
    }
  }

  /** Under every interleaving a group's loop deals with one connection at a time. */
  lemma {:induction false} LoopsAreSerial(limits: seq<nat>, s: State, actions: seq<Action>)
    requires OneEach(s) && Exec(limits, s, actions).Some?
    ensures OneEach(Exec(limits, s, actions).value)
    decreases |actions|
  {
    if actions != [] {
      StepKeepsOneEach(limits, s, actions[0], Do(limits, s, actions[0]).value);
      LoopsAreSerial(limits, Do(limits, s, actions[0]).value, actions[1..]);
    }
  }

  /** In the first state no loop has a connection. */
  lemma LoopsStartIdle(limits: seq<nat>)
    ensures OneEach(Init(limits))
  {
  }

  function HoldersBelow(s: State, n: nat): set<Conn> {
    set c | c in s.conns && s.conns[c].group < n && s.conns[c].phase != Accepted
  }

  /** Slot holders of the first `n` groups, counted group by group. */
  lemma {:induction false} HoldersSum(limits: seq<nat>, s: State, n: nat)
    requires Inv(limits, s) && n <= |limits|
    ensures |HoldersBelow(s, n)| == Sum(s.groupTokens[..n])
  {
    if n == 0 {
      assert HoldersBelow(s, 0) == {};
    } else {
      HoldersSum(limits, s, n - 1);
      assert HoldersBelow(s, n) == HoldersBelow(s, n - 1) + Holders(s, n - 1);
      assert s.groupTokens[..n][..n - 1] == s.groupTokens[..n - 1];
    }
  }

  lemma {:induction false} SumIsMonotone(a: seq<nat>, b: seq<nat>)
    requires |a| == |b| && forall i | 0 <= i < |a| :: a[i] <= b[i]
    ensures Sum(a) <= Sum(b)
  {
    if a != [] {
      SumIsMonotone(a[..|a| - 1], b[..|b| - 1]);
    }
  }

  /**
    While the limits add up to at most the global maximum, a connection that holds its group
    slot always finds a free global slot: every global slot in use belongs to another holder
    of a group slot, because handlers give the global one back first.
  */
  lemma GlobalSlotIsFree(limits: seq<nat>, s: State, c: Conn)
    requires Inv(limits, s) && Sum(limits) <= 8192
    requires At(s, c, HoldsGroup) || At(s, c, BackingOut)
    ensures s.globalTokens < Capacity(limits)
  {
    var all := HoldersBelow(s, |limits|);
    assert c in all && c !in Live(s);
    SubsetSize(Live(s) + {c}, all);
    HoldersSum(limits, s, |limits|);
    assert s.groupTokens[..|limits|] == s.groupTokens;
    SumIsMonotone(s.groupTokens, limits);
  }

  predicate NoneBackingOut(s: State) {
    forall c | c in s.conns :: s.conns[c].phase != BackingOut
  }

  lemma StepNeverBacksOut(limits: seq<nat>, s: State, a: Action, s': State)
    requires Inv(limits, s) && NoneBackingOut(s) && Sum(limits) <= GLOBAL_MAX
    requires Do(limits, s, a) == Some(s')
    ensures NoneBackingOut(s')
  {
    if a.TakeGlobal? && At(s, a.conn, HoldsGroup) {
      GlobalSlotIsFree(limits, s, a.conn);
    }
  }

  lemma {:induction false} RunNeverBacksOut(limits: seq<nat>, s: State, actions: seq<Action>)
    requires Inv(limits, s) && NoneBackingOut(s) && Sum(limits) <= GLOBAL_MAX
    requires Exec(limits, s, actions).Some?
    ensures NoneBackingOut(Exec(limits, s, actions).value)
    decreases |actions|
  {
    if actions != [] {
      var s' := Do(limits, s, actions[0]).value;
      StepKeepsInv(limits, s, actions[0], s');
      StepNeverBacksOut(limits, s, actions[0], s');
      RunNeverBacksOut(limits, s', actions[1..]);
    }
  }

  // ---------------------------------------------------------------- the rejection is reachable exactly beyond 8192

  lemma {:induction false} ExecAppend(limits: seq<nat>, s: State, actions: seq<Action>, a: Action)
    requires Exec(limits, s, actions).Some?
    ensures Exec(limits, s, actions + [a]) == Do(limits, Exec(limits, s, actions).value, a)
    decreases |actions|
  {
    if actions == [] {
      assert [a][1..] == [];
    } else {
      var s' := Do(limits, s, actions[0]).value;
      ExecAppend(limits, s', actions[1..], a);
      assert (actions + [a])[1..] == actions[1..] + [a];
    }
  }

  /** Only handlers: every loop idle, every connection numbered below `n`. */
  ghost predicate Filled(limits: seq<nat>, s: State, n: nat) {
    && Inv(limits, s) && |Live(s)| == n
    && (forall c | c in s.conns :: s.conns[c].phase == Handling && c < n)
  }

  lemma RoomLeft(limits: seq<nat>, s: State, n: nat) returns (g: nat)
    requires Filled(limits, s, n) && n < Sum(limits)
    ensures g < |limits| && s.groupTokens[g] < limits[g]
  {
    HoldersSum(limits, s, |limits|);
    assert s.groupTokens[..|limits|] == s.groupTokens;
    assert HoldersBelow(s, |limits|) == Live(s);
    assert s.groupTokens != limits;
    g :| 0 <= g < |limits| && s.groupTokens[g] != limits[g];
  }

  /** From a filled state, one more connection reaches its global slot decision. */
  lemma OneMore(limits: seq<nat>, actions: seq<Action>, n: nat) returns (more: seq<Action>, g: nat)
    requires Exec(limits, Init(limits), actions).Some? && Filled(limits, Exec(limits, Init(limits), actions).value, n)
    requires n < Sum(limits)
    ensures g < |limits| && Exec(limits, Init(limits), more).Some?
    ensures var s, s' := Exec(limits, Init(limits), actions).value, Exec(limits, Init(limits), more).value;
      && n !in s.conns && Inv(limits, s')
      && s'.conns == s.conns[n := Place(g, HoldsGroup)] && s'.globalTokens == n
  {
    var s := Exec(limits, Init(limits), actions).value;
    g := RoomLeft(limits, s, n);
    var accepted := actions + [Accept(g, n)];
    ExecAppend(limits, Init(limits), actions, Accept(g, n));
    var s1 := Exec(limits, Init(limits), accepted).value;
    more := accepted + [TakeGroup(n)];
    ExecAppend(limits, Init(limits), accepted, TakeGroup(n));
    StepKeepsInv(limits, s, Accept(g, n), s1);
    StepKeepsInv(limits, s1, TakeGroup(n), Exec(limits, Init(limits), more).value);
  }

  lemma {:induction false} Fill(limits: seq<nat>, n: nat) returns (actions: seq<Action>)
    requires n <= Capacity(limits)
    ensures Exec(limits, Init(limits), actions).Some?
    ensures Filled(limits, Exec(limits, Init(limits), actions).value, n)
  {
    if n == 0 {
      actions := [];
      InitInv(limits);
    } else {
      var before := Fill(limits, n - 1);
      var s := Exec(limits, Init(limits), before).value;
      var more, g := OneMore(limits, before, n - 1);
      var s1 := Exec(limits, Init(limits), more).value;
      actions := more + [TakeGlobal(n - 1)];
      ExecAppend(limits, Init(limits), more, TakeGlobal(n - 1));
      var s2 := Exec(limits, Init(limits), actions).value;
      StepKeepsInv(limits, s1, TakeGlobal(n - 1), s2);
      assert s2.globalTokens == n;
    }
  }

  /** A global-capacity rejection can happen exactly when the limits add up to more than 8192. */
  lemma RejectionReachableIff(limits: seq<nat>)
    ensures (exists actions :: Exec(limits, Init(limits), actions).Some?
                            && !NoneBackingOut(Exec(limits, Init(limits), actions).value))
       <==> Sum(limits) > 8192
  {
    if Sum(limits) > GLOBAL_MAX {
      var actions := Fill(limits, GLOBAL_MAX);
      var more, g := OneMore(limits, actions, GLOBAL_MAX);
      var last := more + [TakeGlobal(GLOBAL_MAX)];
      ExecAppend(limits, Init(limits), more, TakeGlobal(GLOBAL_MAX));
      var s := Exec(limits, Init(limits), last).value;
      assert s.conns[GLOBAL_MAX].phase == BackingOut;
      assert !NoneBackingOut(s);
    } else {
      InitInv(limits);
      forall actions | Exec(limits, Init(limits), actions).Some?
        ensures NoneBackingOut(Exec(limits, Init(limits), actions).value)
      {
        RunNeverBacksOut(limits, Init(limits), actions);
      }
    }
  }
}
