/**
 Which schedules leave the rings of the shared pool sorted (src/pool.c).  A
 return takes two turns, the stamp and the push under the lock; the rings stay
 sorted exactly when no two returns to one tracker cross.
 */
module PoolCrossing {
  import opened Common
  import opened StackSpec
  import opened TrackerTable
  import opened PoolMachine
  import opened PoolOrder

  // ---------------------------------------------------------- states of a run

  /** The state before turn k. */
  ghost function At(s: State, schedule: seq<Turn>, k: nat): (r: State)
    requires Typed(s) && OnBoard(schedule, |s.threads|) && k <= |schedule|
    ensures Typed(r) && |r.threads| == |s.threads| && |r.rings| == |s.rings|
  {
    Run(s, schedule[..k])
  }

  lemma {:induction false} RunSnoc(s: State, schedule: seq<Turn>, turn: Turn)
    requires Typed(s) && OnBoard(schedule + [turn], |s.threads|) && OnBoard(schedule, |s.threads|)
    requires turn.thread < |s.threads|
    ensures Run(s, schedule + [turn]) == Step(Run(s, schedule), turn.thread, turn.choice)
    decreases |schedule|
  {
    hide Step, Typed;
    var all := schedule + [turn];
    if schedule == [] {
      assert all[1..] == [];
    } else {
      assert all[0] == schedule[0] && all[1..] == schedule[1..] + [turn];
      StepTyped(s, schedule[0].thread, schedule[0].choice);
      RunSnoc(Step(s, schedule[0].thread, schedule[0].choice), schedule[1..], turn);
    }
  }

  lemma AtNext(s: State, schedule: seq<Turn>, k: nat)
    requires Typed(s) && OnBoard(schedule, |s.threads|) && k < |schedule|
    ensures At(s, schedule, k + 1) == Step(At(s, schedule, k), schedule[k].thread, schedule[k].choice)
  {
    hide Step, Typed, Run;
    assert schedule[..k + 1] == schedule[..k] + [schedule[k]];
    RunSnoc(s, schedule[..k], schedule[k]);
  }

  lemma AtStart(s: State, schedule: seq<Turn>)
    requires Typed(s) && OnBoard(schedule, |s.threads|)
    ensures At(s, schedule, 0) == s
  {
  }

  lemma AtTail(s: State, schedule: seq<Turn>, k: nat)
    requires Typed(s) && OnBoard(schedule, |s.threads|) && 0 < k <= |schedule|
    ensures var s' := Step(s, schedule[0].thread, schedule[0].choice);
      && Typed(s') && |s'.threads| == |s.threads| && OnBoard(schedule[1..], |s'.threads|)
      && At(s, schedule, k) == At(s', schedule[1..], k - 1)
  {
    hide Step, Typed;
    StepTyped(s, schedule[0].thread, schedule[0].choice);
    assert schedule[..k][1..] == schedule[1..][..k - 1];
  }

  lemma AtConserved(s: State, schedule: seq<Turn>, k: nat)
    requires Typed(s) && Conserved(s) && OnBoard(schedule, |s.threads|) && k <= |schedule|
    ensures Conserved(At(s, schedule, k))
  {
    hide Step, Typed, Conserved, Run;
    RunConserves(s, schedule[..k]);
  }

  /** Sortedness along a run, state by state. */
  lemma {:induction false} SortedAlongAt(s: State, schedule: seq<Turn>)
    requires Typed(s) && OnBoard(schedule, |s.threads|)
    ensures SortedAlong(s, schedule) <==> forall k :: 0 <= k <= |schedule| ==> AllSorted(At(s, schedule, k))
    decreases |schedule|
  {
    hide Step, Typed, AllSorted, At;
    AtStart(s, schedule);
    if schedule != [] {
      var s' := Step(s, schedule[0].thread, schedule[0].choice);
      StepTyped(s, schedule[0].thread, schedule[0].choice);
      SortedAlongAt(s', schedule[1..]);
      forall k | 0 < k <= |schedule| ensures At(s, schedule, k) == At(s', schedule[1..], k - 1) {
        AtTail(s, schedule, k);
      }
      assert forall k :: 0 <= k <= |schedule[1..]| ==> At(s', schedule[1..], k) == At(s, schedule, k + 1);
    }
  }

  lemma {:induction false} TimelyAlongAt(s: State, schedule: seq<Turn>)
    requires Typed(s) && OnBoard(schedule, |s.threads|)
    ensures TimelyAlong(s, schedule) <==>
      forall k :: 0 <= k < |schedule| ==> TimelyTurn(At(s, schedule, k), schedule[k].thread)
    decreases |schedule|
  {
    hide Step, Typed, TimelyTurn, At;
    AtStart(s, schedule);
    if schedule != [] {
      var s' := Step(s, schedule[0].thread, schedule[0].choice);
      StepTyped(s, schedule[0].thread, schedule[0].choice);
      TimelyAlongAt(s', schedule[1..]);
      forall k | 0 < k <= |schedule| ensures At(s, schedule, k) == At(s', schedule[1..], k - 1) {
        AtTail(s, schedule, k);
      }
      assert forall k :: 0 <= k < |schedule[1..]| ==>
        At(s', schedule[1..], k) == At(s, schedule, k + 1) && schedule[1..][k] == schedule[k + 1];
    }
  }

  // ------------------------------------------------ the turns of one return

  predicate StampsNow(s: State, i: nat, c: nat) {
    i < |s.threads| && s.threads[i].Stamping? && s.threads[i].c == c
  }

  predicate PushesNow(s: State, i: nat, c: nat) {
    i < |s.threads| && s.threads[i].Pushing? && s.threads[i].c == c
  }

  /** The last turn before n that stamps connection c, -1 if none does. */
  ghost function LastStamp(s: State, schedule: seq<Turn>, n: nat, c: nat): (k: int)
    requires Typed(s) && OnBoard(schedule, |s.threads|) && n <= |schedule|
    ensures -1 <= k < n
    ensures k >= 0 ==> StampsNow(At(s, schedule, k), schedule[k].thread, c)
  {
    if n == 0 then -1
    else if StampsNow(At(s, schedule, n - 1), schedule[n - 1].thread, c) then n - 1
    else LastStamp(s, schedule, n - 1, c)
  }

  /** The last turn before n that pushes connection c, -1 if none does. */
  ghost function LastPush(s: State, schedule: seq<Turn>, n: nat, c: nat): (k: int)
    requires Typed(s) && OnBoard(schedule, |s.threads|) && n <= |schedule|
    ensures -1 <= k < n
    ensures k >= 0 ==> PushesNow(At(s, schedule, k), schedule[k].thread, c)
  {
    if n == 0 then -1
    else if PushesNow(At(s, schedule, n - 1), schedule[n - 1].thread, c) then n - 1
    else LastPush(s, schedule, n - 1, c)
  }

  lemma StepStamps(s: State, i: nat, ch: Choice, c: nat)
    requires Typed(s) && i < |s.threads|
    ensures var s' := Step(s, i, ch);
      && s.clock <= s'.clock && |s.stamps| <= |s'.stamps|
      && (StampsNow(s, i, c) ==> c < |s.stamps| && s'.stamps[c] == s'.clock)
      && (!StampsNow(s, i, c) && c < |s'.stamps| ==> s'.stamps[c] == if c < |s.stamps| then s.stamps[c] else 0)
  {
    hide IsPartition, RingsAtHome, Activate, Deactivate, Snapshot, ExpiryCut;
    var pc := s.threads[i];
    assert PcOk(pc, s.home, |s.rings|);
    if pc.Stamping? {
      assert Held(pc)[0] == pc.c;
    }
  }

  lemma {:induction false} ClockMonotone(s: State, schedule: seq<Turn>, j: nat, k: nat)
    requires Typed(s) && OnBoard(schedule, |s.threads|) && j <= k <= |schedule|
    ensures At(s, schedule, j).clock <= At(s, schedule, k).clock
    ensures |At(s, schedule, j).stamps| <= |At(s, schedule, k).stamps|
    decreases k
  {
    hide Step, Typed, At;
    if j < k {
      ClockMonotone(s, schedule, j, k - 1);
      AtNext(s, schedule, k - 1);
      StepStamps(At(s, schedule, k - 1), schedule[k - 1].thread, schedule[k - 1].choice, 0);
    }
  }

  /** A connection's stamp is the time of the last turn that stamped it. */
  lemma {:induction false} StampIsLast(s: State, schedule: seq<Turn>, n: nat, c: nat)
    requires Initial(s) && Typed(s) && OnBoard(schedule, |s.threads|) && n <= |schedule|
    ensures var k, st := LastStamp(s, schedule, n, c), At(s, schedule, n);
      && (k >= 0 ==> c < |st.stamps| && st.stamps[c] == At(s, schedule, k + 1).clock)
      && (k < 0 && c < |st.stamps| ==> st.stamps[c] == 0)
    decreases n
  {
    hide Step, Typed, At, StampsNow;
    if n == 0 {
      AtStart(s, schedule);
    } else {
      StampIsLast(s, schedule, n - 1, c);
      AtNext(s, schedule, n - 1);
      StepStamps(At(s, schedule, n - 1), schedule[n - 1].thread, schedule[n - 1].choice, c);
    }
  }

  /** Only stamping leads to pushing. */
  lemma StepToPush(s: State, i: nat, ch: Choice, j: nat)
    requires Typed(s) && i < |s.threads| && j < |s.threads|
    ensures var s' := Step(s, i, ch);
      && |s'.threads| == |s.threads|
      && (s'.threads[j].Pushing? ==>
            if i == j then StampsNow(s, i, s'.threads[j].c) else s.threads[j] == s'.threads[j])
  {
    hide IsPartition, RingsAtHome, Activate, Deactivate, Snapshot, ExpiryCut;
  }

  /** What is about to be pushed has been stamped. */
  lemma {:induction false} PushingWasStamped(s: State, schedule: seq<Turn>, n: nat, j: nat)
    requires Initial(s) && Typed(s) && OnBoard(schedule, |s.threads|) && n <= |schedule| && j < |s.threads|
    requires At(s, schedule, n).threads[j].Pushing?
    ensures LastStamp(s, schedule, n, At(s, schedule, n).threads[j].c) >= 0
    decreases n
  {
    hide Step, Typed, At, StampsNow;
    if n == 0 {
      AtStart(s, schedule);
    } else {
      AtNext(s, schedule, n - 1);
      StepToPush(At(s, schedule, n - 1), schedule[n - 1].thread, schedule[n - 1].choice, j);
      if schedule[n - 1].thread != j {
        PushingWasStamped(s, schedule, n - 1, j);
      }
    }
  }

  /** Only pushing puts a connection into a ring, and a pooled one is not stamped. */
  lemma StepToPool(s: State, i: nat, ch: Choice, t: int, b: nat)
    requires Typed(s) && Conserved(s) && i < |s.threads| && 0 <= t < |s.rings|
    ensures var s' := Step(s, i, ch);
      && |s'.rings| == |s.rings|
      && (b in s'.rings[t] && b !in s.rings[t] ==> PushesNow(s, i, b) && !StampsNow(s, i, b))
      && (b in s.rings[t] ==> !StampsNow(s, i, b))
  {
    hide Conserved, IsPartition, RingsAtHome, Activate, Deactivate, Snapshot, ExpiryCut;
    var pc := s.threads[i];
    if pc.Stamping? {
      HeldIsNotPooled(s, i, t, pc.c);
    }
  }

  /** What is pooled has been stamped and then pushed, and neither since. */
  lemma {:induction false} PooledWasPushed(s: State, schedule: seq<Turn>, n: nat, t: int, b: nat)
    requires Initial(s) && Typed(s) && Conserved(s) && OnBoard(schedule, |s.threads|) && n <= |schedule|
    requires 0 <= t < |s.rings| && b in At(s, schedule, n).rings[t]
    ensures 0 <= LastStamp(s, schedule, n, b) < LastPush(s, schedule, n, b)
    decreases n
  {
    hide Step, Typed, Conserved, At;
    if n == 0 {
      AtStart(s, schedule);
    } else {
      var before, turn := At(s, schedule, n - 1), schedule[n - 1];
      AtNext(s, schedule, n - 1);
      AtConserved(s, schedule, n - 1);
      StepToPool(before, turn.thread, turn.choice, t, b);
      if b in before.rings[t] {
        PooledWasPushed(s, schedule, n - 1, t, b);
      } else {
        PushingWasStamped(s, schedule, n - 1, turn.thread);
      }
    }
  }

  // ------------------------------------------------------------ crossing

  /**
   Two returns cross when turn p pushes `a`: `b` was stamped after `a`, at a later
   time, but pushed before it.
   */
  ghost predicate CrossedWith(s: State, schedule: seq<Turn>, p: nat, a: nat, b: nat)
    requires Typed(s) && OnBoard(schedule, |s.threads|) && p <= |schedule|
  {
    var ka, kb := LastStamp(s, schedule, p, a), LastStamp(s, schedule, p, b);
    && 0 <= ka < kb < LastPush(s, schedule, p, b)
    && At(s, schedule, ka + 1).clock < At(s, schedule, kb + 1).clock
  }

  /** Turn p is a push that crosses the return of a connection still pooled with the same tracker. */
  ghost predicate Crosses(s: State, schedule: seq<Turn>, p: nat)
    requires Typed(s) && OnBoard(schedule, |s.threads|) && p < |schedule|
  {
    var st := At(s, schedule, p);
    var pc := st.threads[schedule[p].thread];
    && pc.Pushing? && 0 <= pc.t < |st.rings|
    && exists b :: b in st.rings[pc.t] && CrossedWith(s, schedule, p, pc.c, b)
  }

  /** Of two stamped connections the newer is the one stamped later, and at a later time. */
  lemma NewerIffCrossed(s: State, schedule: seq<Turn>, p: nat, a: nat, b: nat)
    requires Initial(s) && Typed(s) && OnBoard(schedule, |s.threads|) && p <= |schedule|
    requires LastStamp(s, schedule, p, a) >= 0
    requires 0 <= LastStamp(s, schedule, p, b) < LastPush(s, schedule, p, b)
    ensures a < |At(s, schedule, p).stamps| && b < |At(s, schedule, p).stamps|
    ensures At(s, schedule, p).stamps[a] < At(s, schedule, p).stamps[b] <==> CrossedWith(s, schedule, p, a, b)
  {
    hide Typed, At, LastStamp, LastPush, Initial;
    StampIsLast(s, schedule, p, a);
    StampIsLast(s, schedule, p, b);
    var ka, kb := LastStamp(s, schedule, p, a), LastStamp(s, schedule, p, b);
    if kb <= ka {
      ClockMonotone(s, schedule, kb + 1, ka + 1);
    }
  }

  /** A push that is not timely crosses the return of the head it lands on. */
  lemma UntimelyCrosses(s: State, schedule: seq<Turn>, p: nat)
    requires Initial(s) && Typed(s) && Conserved(s) && OnBoard(schedule, |s.threads|) && p < |schedule|
    requires !TimelyTurn(At(s, schedule, p), schedule[p].thread)
    ensures Crosses(s, schedule, p)
  {
    hide Typed, Conserved, At, LastStamp, LastPush, Initial, CrossedWith, View;
    var st, i := At(s, schedule, p), schedule[p].thread;
    var pc := st.threads[i];
    TimelyMeansNewer(st, i);
    HeadOfView(st, pc.t);
    var b := st.rings[pc.t][0];
    PushingWasStamped(s, schedule, p, i);
    PooledWasPushed(s, schedule, p, pc.t, b);
    NewerIffCrossed(s, schedule, p, pc.c, b);
  }

  lemma HeadOfView(s: State, t: int)
    requires Typed(s) && 0 <= t < |s.rings|
    ensures View(s, t) == [] <==> s.rings[t] == []
    ensures s.rings[t] != [] ==>
      s.rings[t][0] < |s.stamps| && View(s, t)[0].lastUsed == s.stamps[s.rings[t][0]]
  {
    hide IsPartition;
    RingIndexes(s, t);
  }

  /** After a push that crosses another return its ring is not sorted. */
  lemma CrossingUnsorts(s: State, schedule: seq<Turn>, p: nat)
    requires Initial(s) && Typed(s) && Conserved(s) && OnBoard(schedule, |s.threads|) && p < |schedule|
    requires Crosses(s, schedule, p)
    ensures !AllSorted(At(s, schedule, p + 1))
  {
    hide Typed, Conserved, At, LastStamp, LastPush, Initial, CrossedWith, View, Step, Sorted;
    var st, i, ch := At(s, schedule, p), schedule[p].thread, schedule[p].choice;
    var pc := st.threads[i];
    var b :| b in st.rings[pc.t] && CrossedWith(s, schedule, p, pc.c, b);
    PushingWasStamped(s, schedule, p, i);
    PooledWasPushed(s, schedule, p, pc.t, b);
    NewerIffCrossed(s, schedule, p, pc.c, b);
    AtNext(s, schedule, p);
    AtConserved(s, schedule, p);
    PushOverNewer(st, i, ch, b);
  }

  lemma PushOverNewer(s: State, i: nat, ch: Choice, b: nat)
    requires Typed(s) && Conserved(s) && i < |s.threads| && s.threads[i].Pushing?
    requires var pc := s.threads[i]; 0 <= pc.t < |s.rings| && b in s.rings[pc.t]
    requires var pc := s.threads[i]; pc.c < |s.stamps| && b < |s.stamps| && s.stamps[pc.c] < s.stamps[b]
    ensures Typed(Step(s, i, ch)) && !AllSorted(Step(s, i, ch))
  {
    hide Conserved, IsPartition, RingsAtHome, Step;
    var pc := s.threads[i];
    PushesView(s, i, ch, pc.t);
    OpShape(s, i, ch, pc.t);
    RingIndexes(s, pc.t);
    var k :| 0 <= k < |s.rings[pc.t]| && s.rings[pc.t][k] == b;
    var v := View(s, pc.t);
    assert v[k].lastUsed == s.stamps[b];
    var after := View(Step(s, i, ch), pc.t);
    assert after[0].lastUsed == s.stamps[pc.c] && after[k + 1] == v[k];
  }

  /**
   Main result: from registration on, all rings stay sorted throughout a run if
   and only if no two returns to one tracker cross while the first pushed is
   still pooled: stamped a, then at a later time stamped b, pushed b, pushed a.
   */
  lemma SortedIffNothingCrosses(s: State, schedule: seq<Turn>)
    requires Initial(s) && OnBoard(schedule, |s.threads|)
    ensures Typed(s)
    ensures SortedAlong(s, schedule) <==> forall p :: 0 <= p < |schedule| ==> !Crosses(s, schedule, p)
  {
    InitialIsGood(s);
    InitialIsSorted(s);
    hide Typed, Conserved, At, Crosses, Initial, AllSorted, TimelyTurn;
    SortedAlongAt(s, schedule);
    SortedAlongIff(s, schedule);
    TimelyAlongAt(s, schedule);
    hide SortedAlong, TimelyAlong;
    if p :| 0 <= p < |schedule| && Crosses(s, schedule, p) {
      CrossingUnsorts(s, schedule, p);
    } else {
      forall p | 0 <= p < |schedule| ensures TimelyTurn(At(s, schedule, p), schedule[p].thread) {
        if !TimelyTurn(At(s, schedule, p), schedule[p].thread) {
          UntimelyCrosses(s, schedule, p);
        }
      }
    }
  }

  lemma InitialIsSorted(s: State)
    requires Initial(s) && Typed(s)
    ensures AllSorted(s)
  {
  }
}
