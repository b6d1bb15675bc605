/**
 The rings of inactive trackers in the shared pool (src/pool.c).  Deactivation
 drains the ring, but a thread that still holds a connection puts it back all
 the same, and expiry does not walk inactive trackers.
 */
module PoolDrain {
  import opened Common
  import opened StackSpec
  import opened TrackerTable
  import opened PoolMachine
  import opened PoolOrder
  import opened PoolCrossing

  predicate Drains(pc: Pc, t: int) {
    (pc.Draining? || pc.DrainDestroying?) && pc.t == t
  }

  predicate BeingDrained(s: State, t: int) {
    exists j :: 0 <= j < |s.threads| && Drains(s.threads[j], t)
  }

  /** A connection pooled with an inactive tracker that no thread is draining. */
  predicate Stray(s: State, t: int, b: nat) {
    0 <= t < |s.rings| && t in s.partition.inactive && b in s.rings[t] && !BeingDrained(s, t)
  }

  /** A push to an inactive tracker whose drain is over. */
  predicate PushesLate(s: State, i: nat) {
    && i < |s.threads| && s.threads[i].Pushing?
    && s.threads[i].t in s.partition.inactive && !BeingDrained(s, s.threads[i].t)
  }

  // ---------------------------------------------------------------- one step

  /** A drain ends only when the ring is empty. */
  lemma StillDrained(s: State, i: nat, ch: Choice, t: int)
    requires Typed(s) && i < |s.threads| && 0 <= t < |s.rings| && BeingDrained(s, t)
    ensures var s' := Step(s, i, ch); BeingDrained(s', t) || (|s'.rings| == |s.rings| && s'.rings[t] == [])
  {
    hide IsPartition, RingsAtHome, Activate, Deactivate, Snapshot, ExpiryCut, PcOk;
    var s', pc := Step(s, i, ch), s.threads[i];
    var j :| 0 <= j < |s.threads| && Drains(s.threads[j], t);
    if j != i || pc.DrainDestroying? || s.rings[t] != [] {
      assert Drains(s'.threads[j], t);
    }
  }

  /** Whoever takes a tracker out of the active list goes on to drain it. */
  lemma DeactivatorDrains(s: State, i: nat, ch: Choice, t: int)
    requires Typed(s) && i < |s.threads| && 0 <= t < |s.rings|
    requires t in Step(s, i, ch).partition.inactive && t !in s.partition.inactive
    ensures BeingDrained(Step(s, i, ch), t)
  {
    hide RingsAtHome, Snapshot, ExpiryCut, PcOk, RemoveFirst;
    var s', pc := Step(s, i, ch), s.threads[i];
    if pc.Activating? && pc.t in s.partition.inactive {
      RemoveFromDistinct(s.partition.inactive, pc.t);
    }
    assert pc.Deactivating? && pc.t == t && t in s.partition.active;
    assert Drains(s'.threads[i], t);
  }

  lemma PushKeepsTheRest(s: State, i: nat, ch: Choice, t: int)
    requires Typed(s) && i < |s.threads| && s.threads[i].Pushing?
    ensures var s' := Step(s, i, ch); s'.partition == s.partition && (BeingDrained(s', t) <==> BeingDrained(s, t))
  {
    hide IsPartition, RingsAtHome, PcOk;
    var s' := Step(s, i, ch);
    assert forall j :: 0 <= j < |s.threads| ==> Drains(s'.threads[j], t) == Drains(s.threads[j], t);
  }

  /** What is stray after a step was so before, or has just been pushed late. */
  lemma StrayStep(s: State, i: nat, ch: Choice, t: int, b: nat)
    requires Typed(s) && Conserved(s) && i < |s.threads| && Stray(Step(s, i, ch), t, b)
    ensures Stray(s, t, b) || (PushesLate(s, i) && PushesNow(s, i, b) && s.threads[i].t == t)
  {
    hide Step, Conserved, Typed, BeingDrained;
    StepTyped(s, i, ch);
    if BeingDrained(s, t) {
      StillDrained(s, i, ch, t);
    }
    if t !in s.partition.inactive {
      DeactivatorDrains(s, i, ch, t);
    }
    if b !in s.rings[t] {
      StepToPool(s, i, ch, t, b);
      PushLandsAtHome(s, i, ch, t, b);
    }
  }

  lemma PushLandsAtHome(s: State, i: nat, ch: Choice, t: int, b: nat)
    requires Typed(s) && PushesNow(s, i, b) && 0 <= t < |s.rings| && b !in s.rings[t]
    ensures |Step(s, i, ch).rings| == |s.rings|
    ensures b in Step(s, i, ch).rings[t] <==> s.threads[i].t == t
  {
    hide IsPartition, RingsAtHome;
    assert PcOk(s.threads[i], s.home, |s.rings|);
  }

  /** A late push leaves its connection stray. */
  lemma LatePushStrays(s: State, i: nat, ch: Choice)
    requires Typed(s) && PushesLate(s, i)
    ensures Stray(Step(s, i, ch), s.threads[i].t, s.threads[i].c)
  {
    var t, c := s.threads[i].t, s.threads[i].c;
    PushKeepsTheRest(s, i, ch, t);
    PushAdds(s, i, ch);
  }

  lemma PushAdds(s: State, i: nat, ch: Choice)
    requires Typed(s) && i < |s.threads| && s.threads[i].Pushing?
    ensures var s', pc := Step(s, i, ch), s.threads[i];
      0 <= pc.t < |s.rings| == |s'.rings| && pc.c in s'.rings[pc.t]
  {
    hide IsPartition, RingsAtHome;
    assert PcOk(s.threads[i], s.home, |s.rings|);
  }

  // ---------------------------------------------------------------- runs

  /**
   Main result: over every run, a connection pooled with an inactive tracker that
   nobody drains was put there by a late push, and has been stray ever since.
   */
  lemma {:induction false} StrayWasPushedLate(s: State, schedule: seq<Turn>, n: nat, t: int, b: nat) returns (p: nat)
    requires Initial(s) && Typed(s) && Conserved(s) && OnBoard(schedule, |s.threads|) && n <= |schedule|
    requires Stray(At(s, schedule, n), t, b)
    ensures p < n
    ensures var st, i := At(s, schedule, p), schedule[p].thread;
      PushesLate(st, i) && PushesNow(st, i, b) && st.threads[i].t == t
    ensures forall k :: p < k <= n ==> Stray(At(s, schedule, k), t, b)
    decreases n
  {
    hide Step, Typed, Conserved, At, Stray, PushesLate, PushesNow;
    if n == 0 {
      AtStart(s, schedule);
      NothingStraysAtFirst(s, t, b);
    }
    var before, turn := At(s, schedule, n - 1), schedule[n - 1];
    AtNext(s, schedule, n - 1);
    AtConserved(s, schedule, n - 1);
    StrayStep(before, turn.thread, turn.choice, t, b);
    if Stray(before, t, b) {
      p := StrayWasPushedLate(s, schedule, n - 1, t, b);
    } else {
      p := n - 1;
    }
  }

  lemma NothingStraysAtFirst(s: State, t: int, b: nat)
    requires Initial(s)
    ensures !Stray(s, t, b)
  {
  }

  ghost predicate NothingStrays(s: State, schedule: seq<Turn>)
    requires Typed(s) && OnBoard(schedule, |s.threads|)
  {
    forall n, t, b :: 0 <= n <= |schedule| ==> !Stray(At(s, schedule, n), t, b)
  }

  ghost predicate NoLatePush(s: State, schedule: seq<Turn>)
    requires Typed(s) && OnBoard(schedule, |s.threads|)
  {
    forall p :: 0 <= p < |schedule| ==> !PushesLate(At(s, schedule, p), schedule[p].thread)
  }

  lemma LatePushShows(s: State, schedule: seq<Turn>, p: nat) returns (t: int, b: nat)
    requires Typed(s) && OnBoard(schedule, |s.threads|) && p < |schedule|
    requires PushesLate(At(s, schedule, p), schedule[p].thread)
    ensures Stray(At(s, schedule, p + 1), t, b)
  {
    hide Typed, At, Stray, Step;
    var st, i := At(s, schedule, p), schedule[p].thread;
    t, b := st.threads[i].t, st.threads[i].c;
    LatePushStrays(st, i, schedule[p].choice);
    AtNext(s, schedule, p);
  }

  /** From registration on, inactive trackers' rings are empty outside their drains if and only if no push is late. */
  lemma NothingStraysIff(s: State, schedule: seq<Turn>)
    requires Initial(s) && OnBoard(schedule, |s.threads|)
    ensures Typed(s)
    ensures NothingStrays(s, schedule) <==> NoLatePush(s, schedule)
  {
    InitialIsGood(s);
    hide Typed, Conserved, At, Initial, Stray, PushesLate, Step;
    if p :| 0 <= p < |schedule| && PushesLate(At(s, schedule, p), schedule[p].thread) {
      var t, b := LatePushShows(s, schedule, p);
      assert Stray(At(s, schedule, p + 1), t, b);
    } else if n, t, b :| 0 <= n <= |schedule| && Stray(At(s, schedule, n), t, b) {
      var p := StrayWasPushedLate(s, schedule, n, t, b);
    }
  }

  predicate AllIdle(s: State) {
    forall i :: 0 <= i < |s.threads| ==> s.threads[i].Idle?
  }

  /** Then, when all threads are idle, nothing is pooled with an inactive tracker. */
  lemma InactiveAreEmptyWhenIdle(s: State, schedule: seq<Turn>, t: int)
    requires Initial(s) && Typed(s) && OnBoard(schedule, |s.threads|) && NoLatePush(s, schedule)
    ensures var r := Run(s, schedule);
      && |r.rings| == |s.rings|
      && (AllIdle(r) && 0 <= t < |r.rings| && t in r.partition.inactive ==> r.rings[t] == [])
  {
    NothingStraysIff(s, schedule);
    var r := Run(s, schedule);
    assert schedule[..|schedule|] == schedule;
    assert At(s, schedule, |schedule|) == r;
    hide Run, At, Typed, Initial, NoLatePush;
    if AllIdle(r) && 0 <= t < |r.rings| && t in r.partition.inactive && r.rings[t] != [] {
      IdleAndPooledIsStray(r, t);
    }
  }

  lemma IdleAndPooledIsStray(s: State, t: int)
    requires AllIdle(s) && 0 <= t < |s.rings|
    requires t in s.partition.inactive && s.rings[t] != []
    ensures Stray(s, t, s.rings[t][0])
  {
  }

  // ----------------------------------------------------- it does happen

  const REFUSED := Choice(Serve, 1, false, 1)

  /** One thread is using a new connection while the other cannot connect and deactivates the only tracker. */
  function Late(k: nat): State {
    var using := Stage(4, 0);
    var inactive := Partition([], [0]);
    if k <= 4 then Two(Stage(k, 0), Idle, if k > 3 then 1 else 0)
    else if k <= 7 then Two(using, Stage(k - 4, 1), 1)
    else if k == 8 then Two(using, Deactivating(Serve, 0, []), 1)
    else if k == 9 then Two(using, Draining(Serve, 0, []), 1).(partition := inactive)
    else if k == 10 then Two(using, Walk(Serve, []), 1).(partition := inactive)
    else if k == 11 then Two(Stamping(Serve, 0, [], 0), Walk(Serve, []), 1).(partition := inactive)
    else if k == 12 then
      Two(Pushing(Serve, 0, [], 0), Walk(Serve, []), 1).(partition := inactive, stamps := [1], clock := 1)
    else Two(Idle, Walk(Serve, []), 1).(partition := inactive, stamps := [1], clock := 1, rings := [[0]])
  }

  function LateTurn(k: nat): Turn {
    Turn(if k < 4 || k >= 10 then 0 else 1, if k == 7 then REFUSED else AT_ONE)
  }

  lemma LateLeads(k: nat)
    requires k < 13
    ensures Leads(Late(k), LateTurn(k), Late(k + 1))
  {
    hide Leads, Two;
    if k < 4 {
      StageLeads(k, 0, Idle);
    } else if k < 7 {
      StageLeads(k - 4, 1, Stage(4, 0));
    } else if k < 10 {
      DeactivationLeads(k);
    } else {
      ReturnLeads(k);
    }
  }

  lemma DeactivationLeads(k: nat)
    requires 7 <= k < 10
    ensures Leads(Late(k), LateTurn(k), Late(k + 1))
  {
    hide Typed;
    assert RemoveFirst([0], 0) == [];
  }

  lemma ReturnLeads(k: nat)
    requires 10 <= k < 13
    ensures Leads(Late(k), LateTurn(k), Late(k + 1))
  {
    hide Typed, Activate, Deactivate;
    assert Late(11).stamps == [0] && Late(11).stamps[0 := 1] == [1];
    assert [0] + Late(12).rings[0] == [0];
  }

  function LateSchedule(): seq<Turn> {
    seq(13, k requires 0 <= k < 13 => LateTurn(k))
  }

  /** A reachable state with a connection pooled with an inactive tracker and nobody draining it. */
  lemma StrayIsReached()
    ensures Initial(TwoIdle()) && Typed(TwoIdle()) && OnBoard(LateSchedule(), 2)
    ensures Stray(Run(TwoIdle(), LateSchedule()), 0, 0)
  {
    LateEnds();
    TwoIdleIsInitial();
    InitialIsGood(TwoIdle());
    hide Run, Leads, Late, Initial, Typed;
    var path, schedule := seq(14, k requires 0 <= k < 14 => Late(k)), LateSchedule();
    forall k | 0 <= k < 13 ensures Leads(path[k], schedule[k], path[k + 1]) {
      LateLeads(k);
    }
    PathRuns(path, schedule);
  }

  lemma LateEnds()
    ensures Late(0) == TwoIdle() && Stray(Late(13), 0, 0) && |TwoIdle().threads| == 2
  {
    var s := Late(13);
    assert forall j :: 0 <= j < |s.threads| ==> !Drains(s.threads[j], 0);
  }
}
