/**
 The order of the rings in the shared pool (src/pool.c).  Each step acts on
 every ring as a StackSpec operation; because a connection is stamped before
 the lock is taken, the rings stay sorted for some schedules and not for others.
 */
module PoolOrder {
  import opened Common
  import opened StackSpec
  import opened TrackerTable
  import opened PoolMachine

  /** A ring as the expiry scan sees it. */
  function View(s: State, t: int): Stack
    requires Typed(s) && 0 <= t < |s.rings|
  {
    ViewOf(s.rings[t], s.stamps)
  }

  /** What a step does to the ring of tracker `t`. */
  function OpOn(s: State, i: nat, ch: Choice, t: int): Option<Op>
    requires Typed(s) && i < |s.threads|
  {
    var pc := s.threads[i];
    assert PcOk(pc, s.home, |s.rings|);
    match pc
    case Popping(_, u, _) => if u == t then Some(PopOp) else None
    case Draining(_, u, _) => if u == t then Some(PopOp) else None
    case Pushing(_, u, _, c) =>
      assert Held(pc)[0] == c;
      if u == t then Some(PushOp(Entry(c, s.stamps[c]))) else None
    case Expiring(u, _) => if u == t then Some(ExpireOp(ch.now - EXPIRE_TIME)) else None
    case _ => None
  }

  lemma ViewUnstamped(ids: seq<nat>, stamps: seq<int>, c: nat, now: int)
    requires forall k :: 0 <= k < |ids| ==> ids[k] < |stamps|
    requires c < |stamps| && forall k :: 0 <= k < |ids| ==> ids[k] != c
    ensures ViewOf(ids, stamps[c := now]) == ViewOf(ids, stamps)
  {
  }

  lemma ViewLonger(ids: seq<nat>, stamps: seq<int>, x: int)
    requires forall k :: 0 <= k < |ids| ==> ids[k] < |stamps|
    ensures ViewOf(ids, stamps + [x]) == ViewOf(ids, stamps)
  {
  }

  lemma ViewPop(ids: seq<nat>, stamps: seq<int>)
    requires forall k :: 0 <= k < |ids| ==> ids[k] < |stamps|
    requires ids != []
    ensures ViewOf(ids[1..], stamps) == Pop(ViewOf(ids, stamps))
  {
  }

  lemma ViewPush(ids: seq<nat>, stamps: seq<int>, c: nat)
    requires forall k :: 0 <= k < |ids| ==> ids[k] < |stamps|
    requires c < |stamps|
    ensures ViewOf([c] + ids, stamps) == Push(ViewOf(ids, stamps), Entry(c, stamps[c]))
  {
  }

  lemma ViewCut(ids: seq<nat>, stamps: seq<int>, k: nat)
    requires forall k :: 0 <= k < |ids| ==> ids[k] < |stamps|
    requires k <= |ids|
    ensures ViewOf(ids[..k], stamps) == ViewOf(ids, stamps)[..k]
  {
  }

  lemma RingIndexes(s: State, t: int)
    requires Typed(s) && 0 <= t < |s.rings|
    ensures forall k :: 0 <= k < |s.rings[t]| ==> s.rings[t][k] < |s.stamps|
  {
    assert RingsAtHome(s.rings, s.home);
  }

  /** A connection in a thread's hands is in no ring, so stamping it changes no ring. */
  lemma HeldIsNotPooled(s: State, i: nat, t: int, c: nat)
    requires Typed(s) && Conserved(s) && i < |s.threads| && 0 <= t < |s.rings|
    requires Held(s.threads[i]) == [c]
    ensures forall k :: 0 <= k < |s.rings[t]| ==> s.rings[t][k] != c
  {
    hide Conserved, Typed, Bag;
    ConservedMeansExclusive(s);
    var hand := Hands(s.threads)[i];
    assert Apart(s.rings[t], hand);
    assert hand[0] == c;
  }

  lemma PushesView(s: State, i: nat, ch: Choice, t: int)
    requires Typed(s) && Conserved(s) && i < |s.threads| && 0 <= t < |s.rings| && s.threads[i].Pushing?
    ensures Typed(Step(s, i, ch)) && |Step(s, i, ch).rings| == |s.rings|
    ensures OpOn(s, i, ch, t).Some? ==> OpOn(s, i, ch, t).value.PushOp?
    ensures View(Step(s, i, ch), t) ==
      match OpOn(s, i, ch, t) case None => View(s, t) case Some(op) => Push(View(s, t), op.entry)
  {
    StepTyped(s, i, ch);
    RingIndexes(s, t);
    var pc := s.threads[i];
    assert PcOk(pc, s.home, |s.rings|);
    hide Conserved, IsPartition, RingsAtHome, Activate, Deactivate, Snapshot, TailStart, ViewOf;
    assert Held(pc)[0] == pc.c;
    ViewPush(s.rings[t], s.stamps, pc.c);
  }

  lemma ExpiresView(s: State, i: nat, ch: Choice, t: int)
    requires Typed(s) && Conserved(s) && i < |s.threads| && 0 <= t < |s.rings| && s.threads[i].Expiring?
    ensures Typed(Step(s, i, ch)) && |Step(s, i, ch).rings| == |s.rings|
    ensures View(Step(s, i, ch), t) ==
      if s.threads[i].t == t then Kept(View(s, t), ch.now - EXPIRE_TIME) else View(s, t)
  {
    StepTyped(s, i, ch);
    RingIndexes(s, t);
    var pc := s.threads[i];
    assert PcOk(pc, s.home, |s.rings|);
    hide Conserved, IsPartition, RingsAtHome, Activate, Deactivate, Snapshot, TailStart, ViewOf, PcOk;
    if pc.t == t {
      ViewCut(s.rings[t], s.stamps, ExpiryCut(s, t, ch.now));
    }
  }

  lemma StampsView(s: State, i: nat, ch: Choice, t: int)
    requires Typed(s) && Conserved(s) && i < |s.threads| && 0 <= t < |s.rings| && s.threads[i].Stamping?
    ensures Typed(Step(s, i, ch)) && |Step(s, i, ch).rings| == |s.rings|
    ensures View(Step(s, i, ch), t) == View(s, t)
  {
    StepTyped(s, i, ch);
    RingIndexes(s, t);
    var pc := s.threads[i];
    assert PcOk(pc, s.home, |s.rings|);
    hide Conserved, IsPartition, RingsAtHome, Activate, Deactivate, Snapshot, TailStart, ViewOf;
    assert Held(pc)[0] == pc.c;
    HeldIsNotPooled(s, i, t, pc.c);
    ViewUnstamped(s.rings[t], s.stamps, pc.c, if ch.now > s.clock then ch.now else s.clock);
  }

  lemma ConnectsView(s: State, i: nat, ch: Choice, t: int)
    requires Typed(s) && Conserved(s) && i < |s.threads| && 0 <= t < |s.rings| && s.threads[i].Connecting?
    ensures Typed(Step(s, i, ch)) && |Step(s, i, ch).rings| == |s.rings|
    ensures View(Step(s, i, ch), t) == View(s, t)
  {
    StepTyped(s, i, ch);
    RingIndexes(s, t);
    var pc := s.threads[i];
    assert PcOk(pc, s.home, |s.rings|);
    hide Conserved, IsPartition, RingsAtHome, Activate, Deactivate, Snapshot, TailStart, ViewOf;
    ViewLonger(s.rings[t], s.stamps, 0);
  }

  /** Such a step touches neither rings nor stamps. */
  predicate KeepsViews(pc: Pc) {
    !Pops(pc) && !pc.Pushing? && !pc.Expiring? && !pc.Stamping? && !pc.Connecting?
  }

  lemma QuietView(s: State, i: nat, ch: Choice, t: int)
    requires Typed(s) && Conserved(s) && i < |s.threads| && 0 <= t < |s.rings| && KeepsViews(s.threads[i])
    ensures Typed(Step(s, i, ch)) && |Step(s, i, ch).rings| == |s.rings|
    ensures View(Step(s, i, ch), t) == View(s, t)
  {
    StepTyped(s, i, ch);
    RingIndexes(s, t);
    var pc := s.threads[i];
    assert PcOk(pc, s.home, |s.rings|);
    hide Conserved, IsPartition, RingsAtHome, Activate, Deactivate, Snapshot, TailStart, ViewOf;
    assert Step(s, i, ch).rings == s.rings && Step(s, i, ch).stamps == s.stamps;
  }

  lemma PopsView(s: State, i: nat, ch: Choice, t: int)
    requires Typed(s) && i < |s.threads| && 0 <= t < |s.rings| && Pops(s.threads[i])
    ensures Typed(Step(s, i, ch)) && |Step(s, i, ch).rings| == |s.rings|
    ensures View(Step(s, i, ch), t) == if s.threads[i].t == t then Pop(View(s, t)) else View(s, t)
  {
    StepTyped(s, i, ch);
    RingIndexes(s, t);
    hide IsPartition, RingsAtHome, ViewOf, Typed;
    if s.rings[t] != [] {
      ViewPop(s.rings[t], s.stamps);
    } else {
      ViewOfNothing(s.stamps);
    }
  }

  lemma ViewOfNothing(stamps: seq<int>)
    ensures Pop(ViewOf([], stamps)) == ViewOf([], stamps)
  {
  }

  /** Every step of every thread is, on each ring, one stack operation or nothing. */
  lemma StepRefinesStack(s: State, i: nat, ch: Choice, t: int)
    requires Typed(s) && Conserved(s) && i < |s.threads| && 0 <= t < |s.rings|
    ensures Typed(Step(s, i, ch)) && |Step(s, i, ch).rings| == |s.rings|
    ensures View(Step(s, i, ch), t) ==
      match OpOn(s, i, ch, t) case None => View(s, t) case Some(op) => Apply(View(s, t), op)
  {
    hide Step, Typed, Conserved, View;
    var pc := s.threads[i];
    if Pops(pc) {
      PopsView(s, i, ch, t);
    } else if pc.Pushing? {
      PushesView(s, i, ch, t);
    } else if pc.Expiring? {
      ExpiresView(s, i, ch, t);
    } else if pc.Stamping? {
      StampsView(s, i, ch, t);
    } else if pc.Connecting? {
      ConnectsView(s, i, ch, t);
    } else {
      QuietView(s, i, ch, t);
    }
  }

  // ---------------------------------------------------------- sortedness

  predicate AllSorted(s: State)
    requires Typed(s)
  {
    forall t :: 0 <= t < |s.rings| ==> Sorted(View(s, t))
  }

  /** A push is timely when its stamp is not older than the head it lands on. */
  predicate TimelyTurn(s: State, i: nat)
    requires Typed(s) && i < |s.threads|
  {
    var pc := s.threads[i];
    assert PcOk(pc, s.home, |s.rings|);
    if pc.Pushing? then
      assert Held(pc)[0] == pc.c;
      RingIndexes(s, pc.t);
      s.rings[pc.t] == [] || s.stamps[pc.c] >= s.stamps[s.rings[pc.t][0]]
    else true
  }

  lemma StepSortedIff(s: State, i: nat, ch: Choice)
    requires Typed(s) && Conserved(s) && i < |s.threads| && AllSorted(s)
    ensures Typed(Step(s, i, ch))
    ensures AllSorted(Step(s, i, ch)) <==> TimelyTurn(s, i)
  {
    StepTyped(s, i, ch);
    var s', pc := Step(s, i, ch), s.threads[i];
    assert PcOk(pc, s.home, |s.rings|);
    hide Step, Conserved, Sorted, Apply, IsPartition, RingsAtHome;
    forall t | 0 <= t < |s.rings| ensures Sorted(View(s', t)) <==> !pc.Pushing? || pc.t != t || TimelyTurn(s, i) {
      RingSortedIff(s, i, ch, t);
    }
    if pc.Pushing? {
      assert Sorted(View(s', pc.t)) <==> TimelyTurn(s, i);
    }
  }

  lemma TimelyMeansNewer(s: State, i: nat)
    requires Typed(s) && i < |s.threads| && s.threads[i].Pushing?
    ensures var pc := s.threads[i]; 0 <= pc.t < |s.rings| && pc.c < |s.stamps|
    ensures var pc := s.threads[i]; var v := View(s, pc.t);
      TimelyTurn(s, i) <==> (v != [] ==> s.stamps[pc.c] >= v[0].lastUsed)
  {
    hide IsPartition, RingsAtHome;
    var pc := s.threads[i];
    assert PcOk(pc, s.home, |s.rings|);
    assert Held(pc)[0] == pc.c;
    RingIndexes(s, pc.t);
  }

  lemma RingSortedIff(s: State, i: nat, ch: Choice, t: int)
    requires Typed(s) && Conserved(s) && i < |s.threads| && AllSorted(s) && 0 <= t < |s.rings|
    ensures Typed(Step(s, i, ch)) && |Step(s, i, ch).rings| == |s.rings|
    ensures Sorted(View(Step(s, i, ch), t)) <==>
      !s.threads[i].Pushing? || s.threads[i].t != t || TimelyTurn(s, i)
  {
    hide Step, Typed, Conserved, Sorted, Apply, TimelyTurn, View, OpOn;
    StepRefinesStack(s, i, ch, t);
    var pc, op := s.threads[i], OpOn(s, i, ch, t);
    OpShape(s, i, ch, t);
    if pc.Pushing? {
      TimelyMeansNewer(s, i);
    }
    if op.Some? {
      ApplySortedIff(View(s, t), op.value);
    }
  }

  /** Only a thread that is pushing to this ring pushes on it. */
  lemma OpShape(s: State, i: nat, ch: Choice, t: int)
    requires Typed(s) && i < |s.threads|
    ensures var pc, op := s.threads[i], OpOn(s, i, ch, t);
      && (op.Some? && op.value.PushOp? <==> pc.Pushing? && pc.t == t)
      && (pc.Pushing? && pc.t == t ==> pc.c < |s.stamps| && op.value.entry.lastUsed == s.stamps[pc.c])
  {
    hide IsPartition, RingsAtHome;
    var pc := s.threads[i];
    assert PcOk(pc, s.home, |s.rings|);
    if pc.Pushing? {
      assert Held(pc)[0] == pc.c;
    }
  }

  // ----------------------------------------------------------------- runs

  /** Every ring is sorted in every state along the run. */
  ghost predicate SortedAlong(s: State, schedule: seq<Turn>)
    requires Typed(s) && OnBoard(schedule, |s.threads|)
    decreases |schedule|
  {
    AllSorted(s) &&
    (schedule == [] ||
     (StepTyped(s, schedule[0].thread, schedule[0].choice);
      SortedAlong(Step(s, schedule[0].thread, schedule[0].choice), schedule[1..])))
  }

  /** Every push along the run is timely. */
  ghost predicate TimelyAlong(s: State, schedule: seq<Turn>)
    requires Typed(s) && OnBoard(schedule, |s.threads|)
    decreases |schedule|
  {
    schedule == [] ||
    (TimelyTurn(s, schedule[0].thread) &&
     (StepTyped(s, schedule[0].thread, schedule[0].choice);
      TimelyAlong(Step(s, schedule[0].thread, schedule[0].choice), schedule[1..])))
  }

  /** The rings are sorted throughout a run if and only if every push in it is timely. */
  lemma {:induction false} SortedAlongIff(s: State, schedule: seq<Turn>)
    requires Typed(s) && Conserved(s) && OnBoard(schedule, |s.threads|) && AllSorted(s)
    ensures SortedAlong(s, schedule) <==> TimelyAlong(s, schedule)
    decreases |schedule|
  {
    hide Step, Typed, Conserved, AllSorted, TimelyTurn;
    if schedule != [] {
      var i, ch := schedule[0].thread, schedule[0].choice;
      var s' := Step(s, i, ch);
      StepTyped(s, i, ch);
      StepConserves(s, i, ch);
      StepSortedIff(s, i, ch);
      if AllSorted(s') {
        SortedAlongIff(s', schedule[1..]);
      } else {
        NotSortedNow(s', schedule[1..]);
      }
    }
  }

  lemma NotSortedNow(s: State, schedule: seq<Turn>)
    requires Typed(s) && OnBoard(schedule, |s.threads|) && !AllSorted(s)
    ensures !SortedAlong(s, schedule)
  {
  }

  /** In such a run every expiry removes all and only the connections older than the cutoff. */
  lemma ExpiryIsExact(s: State, t: int, cutoff: int)
    requires Typed(s) && AllSorted(s) && 0 <= t < |s.rings|
    ensures Kept(View(s, t), cutoff) == Fresh(View(s, t), cutoff)
  {
    hide Typed, Kept, Fresh, View;
    SortedIsSeparated(View(s, t), cutoff);
    TailScanIsFilterIff(View(s, t), cutoff);
  }

  // ----------------------------------------------- stamp and push together

  /** A thread that has stamped its connection takes the lock before anyone else moves. */
  ghost predicate ReturnsAreAtomic(s: State, schedule: seq<Turn>)
    requires Typed(s) && OnBoard(schedule, |s.threads|)
    decreases |schedule|
  {
    schedule == [] ||
    (StepTyped(s, schedule[0].thread, schedule[0].choice);
     var s' := Step(s, schedule[0].thread, schedule[0].choice);
     && (s'.threads[schedule[0].thread].Pushing? && |schedule| > 1 ==> schedule[1].thread == schedule[0].thread)
     && ReturnsAreAtomic(s', schedule[1..]))
  }

  /** No stamp lies in the future. */
  predicate Clocked(s: State) {
    0 <= s.clock && forall c :: 0 <= c < |s.stamps| ==> s.stamps[c] <= s.clock
  }

  predicate NoneStamped(s: State) {
    forall i :: 0 <= i < |s.threads| ==> !s.threads[i].Pushing?
  }

  /** Thread `i` alone has stamped, and just now. */
  predicate JustStamped(s: State, i: nat)
    requires Typed(s)
  {
    && i < |s.threads| && s.threads[i].Pushing?
    && (assert PcOk(s.threads[i], s.home, |s.rings|); assert Held(s.threads[i])[0] == s.threads[i].c;
        s.stamps[s.threads[i].c] == s.clock)
    && forall j :: 0 <= j < |s.threads| && j != i ==> !s.threads[j].Pushing?
  }

  lemma StepClocked(s: State, i: nat, ch: Choice)
    requires Typed(s) && i < |s.threads| && Clocked(s)
    ensures Clocked(Step(s, i, ch))
  {
    hide IsPartition, RingsAtHome, Activate, Deactivate, Snapshot, ExpiryCut;
    assert PcOk(s.threads[i], s.home, |s.rings|);
    if s.threads[i].Stamping? {
      assert Held(s.threads[i])[0] == s.threads[i].c;
    }
  }

  lemma QuietStepStamps(s: State, i: nat, ch: Choice)
    requires Typed(s) && i < |s.threads| && NoneStamped(s)
    ensures Typed(Step(s, i, ch))
    ensures var s' := Step(s, i, ch); if s'.threads[i].Pushing? then JustStamped(s', i) else NoneStamped(s')
  {
    StepTyped(s, i, ch);
    hide IsPartition, RingsAtHome, Activate, Deactivate, Snapshot, ExpiryCut;
    if s.threads[i].Stamping? {
      assert PcOk(s.threads[i], s.home, |s.rings|);
      assert Held(s.threads[i])[0] == s.threads[i].c;
    } else {
      OnlyStampingLeadsToPush(s, i, ch);
    }
  }

  lemma OnlyStampingLeadsToPush(s: State, i: nat, ch: Choice)
    requires Typed(s) && i < |s.threads| && NoneStamped(s) && !s.threads[i].Stamping?
    ensures NoneStamped(Step(s, i, ch)) && |Step(s, i, ch).threads| == |s.threads|
  {
    hide IsPartition, RingsAtHome, Activate, Deactivate, Snapshot, ExpiryCut, PcOk;
  }

  lemma PushStepClears(s: State, i: nat, ch: Choice)
    requires Typed(s) && JustStamped(s, i)
    ensures NoneStamped(Step(s, i, ch))
  {
    hide IsPartition, RingsAtHome;
  }

  lemma JustStampedIsTimely(s: State, i: nat)
    requires Typed(s) && Clocked(s) && JustStamped(s, i)
    ensures TimelyTurn(s, i)
  {
    hide IsPartition;
    assert PcOk(s.threads[i], s.home, |s.rings|);
    RingIndexes(s, s.threads[i].t);
  }

  /**
   If stamping and pushing are never interleaved with another thread, every push
   is timely, so the rings are sorted throughout (SortedAlongIff).
   */
  lemma {:induction false} AtomicReturnsAreTimely(s: State, schedule: seq<Turn>)
    requires Typed(s) && OnBoard(schedule, |s.threads|) && Clocked(s) && ReturnsAreAtomic(s, schedule)
    requires NoneStamped(s) || (schedule != [] && JustStamped(s, schedule[0].thread))
    ensures TimelyAlong(s, schedule)
    decreases |schedule|
  {
    if schedule == [] {
      return;
    }
    hide Step, Typed, Clocked, NoneStamped, JustStamped, TimelyTurn;
    var i, ch := schedule[0].thread, schedule[0].choice;
    var s' := Step(s, i, ch);
    StepTyped(s, i, ch);
    StepClocked(s, i, ch);
    if NoneStamped(s) {
      QuietStepStamps(s, i, ch);
      NoneStampedIsTimely(s, i);
    } else {
      JustStampedIsTimely(s, i);
      PushStepClears(s, i, ch);
    }
    if schedule[1..] == [] {
      assert TimelyAlong(s', schedule[1..]);
    } else {
      AtomicReturnsAreTimely(s', schedule[1..]);
    }
  }

  lemma NoneStampedIsTimely(s: State, i: nat)
    requires Typed(s) && i < |s.threads| && NoneStamped(s)
    ensures TimelyTurn(s, i)
  {
  }

  /** From registration on: atomic returns keep every ring sorted, newest at the head. */
  lemma AtomicReturnsKeepOrder(s: State, schedule: seq<Turn>)
    requires Initial(s) && OnBoard(schedule, |s.threads|)
    requires Typed(s) && ReturnsAreAtomic(s, schedule)
    ensures SortedAlong(s, schedule)
  {
    InitialIsGood(s);
    AtomicReturnsAreTimely(s, schedule);
    SortedAlongIff(s, schedule);
  }

  // ------------------------------------------ the code's own interleaving

  /** One turn takes the first state to the second. */
  predicate Leads(s: State, turn: Turn, s': State) {
    turn.thread < |s.threads| && |s'.threads| == |s.threads| && (Typed(s) ==> Step(s, turn.thread, turn.choice) == s')
  }

  /** States each of which leads to the next are a run. */
  lemma {:induction false} PathRuns(path: seq<State>, schedule: seq<Turn>)
    requires |path| == |schedule| + 1 && Typed(path[0])
    requires forall k :: 0 <= k < |schedule| ==> Leads(path[k], schedule[k], path[k + 1])
    ensures OnBoard(schedule, |path[0].threads|) && Run(path[0], schedule) == path[|schedule|]
    decreases |schedule|
  {
    hide Typed, Step;
    if schedule != [] {
      assert Leads(path[0], schedule[0], path[1]);
      StepTyped(path[0], schedule[0].thread, schedule[0].choice);
      forall k | 0 <= k < |schedule[1..]| ensures Leads(path[1..][k], schedule[1..][k], path[1..][k + 1]) {
        assert Leads(path[k + 1], schedule[k + 1], path[k + 2]);
      }
      PathRuns(path[1..], schedule[1..]);
    }
  }

  const AT_ONE := Choice(Serve, 1, true, 1)
  const AT_TWO := Choice(Serve, 1, true, 2)

  /** A pool of one tracker, nothing in its ring, `made` connections so far, and two threads. */
  function Two(first: Pc, second: Pc, made: nat): State {
    State(Partition([0], []), [[]], [first, second], seq(made, _ => 0), seq(made, _ => 0), [], 0)
  }

  /** The pool has just been registered. */
  function TwoIdle(): State {
    Two(Idle, Idle, 0)
  }

  /** Both request threads are about to put their connections back. */
  function TwoReturning(): State {
    Two(Stamping(Serve, 0, [], 0), Stamping(Serve, 0, [], 1), 2)
  }

  /** Five turns of the first thread, then five of the second. */
  function BothConnect(): seq<Turn> {
    seq(5, _ => Turn(0, AT_ONE)) + seq(5, _ => Turn(1, AT_ONE))
  }

  /** What one thread goes through: snapshot, empty ring, new connection, reply. */
  function Stage(k: nat, c: nat): Pc {
    if k == 0 then Idle
    else if k == 1 then Walk(Serve, [0])
    else if k == 2 then Popping(Serve, 0, [])
    else if k == 3 then Connecting(Serve, 0, [])
    else if k == 4 then Using(Serve, 0, [], c, true)
    else Stamping(Serve, 0, [], c)
  }

  lemma StageLeads(k: nat, made: nat, other: Pc)
    requires k < 5
    ensures Leads(Two(Stage(k, made), other, made + if k > 3 then 1 else 0), Turn(0, AT_ONE),
                  Two(Stage(k + 1, made), other, made + if k >= 3 then 1 else 0))
    ensures Leads(Two(other, Stage(k, made), made + if k > 3 then 1 else 0), Turn(1, AT_ONE),
                  Two(other, Stage(k + 1, made), made + if k >= 3 then 1 else 0))
  {
    hide Typed;
    var one: seq<int> := [0];
    assert one[1..] == [];
    assert seq(made + 1, _ => 0) == seq(made, _ => 0) + [0];
  }

  lemma TwoIdleIsInitial()
    ensures Initial(TwoIdle())
  {
    assert TwoIdle().partition.active[0] == 0;
  }

  lemma BothConnectTurns()
    ensures |BothConnect()| == 10
    ensures forall k :: 0 <= k < 10 ==> BothConnect()[k] == Turn(if k < 5 then 0 else 1, AT_ONE)
    ensures |TwoIdle().threads| == 2
  {
  }

  function Reaching(k: nat): State {
    if k <= 5 then Two(Stage(k, 0), Idle, if k > 3 then 1 else 0)
    else Two(Stage(5, 0), Stage(k - 5, 1), if k > 8 then 2 else 1)
  }

  lemma ReachingEnds()
    ensures Reaching(0) == TwoIdle() && Reaching(10) == TwoReturning()
  {
  }

  lemma ReachingLeads(k: nat)
    requires k < 10
    ensures Leads(Reaching(k), Turn(if k < 5 then 0 else 1, AT_ONE), Reaching(k + 1))
  {
    hide Leads, Two;
    if k < 5 {
      StageLeads(k, 0, Idle);
    } else {
      StageLeads(k - 5, 1, Stage(5, 0));
    }
  }

  /** Each of the two threads takes a snapshot, connects, and gets its reply. */
  lemma TwoReturningIsReached()
    ensures Initial(TwoIdle()) && Typed(TwoIdle()) && OnBoard(BothConnect(), 2)
    ensures Run(TwoIdle(), BothConnect()) == TwoReturning()
  {
    hide *;
    ReachingEnds();
    TwoIdleIsInitial();
    InitialIsGood(TwoIdle());
    BothConnectTurns();
    var path, schedule := seq(11, k requires 0 <= k < 11 => Reaching(k)), BothConnect();
    forall k | 0 <= k < 10 ensures Leads(path[k], schedule[k], path[k + 1]) {
      ReachingLeads(k);
    }
    PathRuns(path, schedule);
  }

  /** The first thread stamps, the second stamps and pushes, the first pushes. */
  function Crossing(): seq<Turn> {
    [Turn(0, AT_ONE), Turn(1, AT_TWO), Turn(1, AT_TWO), Turn(0, AT_TWO)]
  }

  function Stamped(s: State, i: nat, c: nat, now: int): (r: State)
    requires i < |s.threads| && c < |s.stamps|
    ensures |r.threads| == |s.threads| && |r.stamps| == |s.stamps|
  {
    s.(threads := s.threads[i := Pushing(Serve, 0, [], c)], stamps := s.stamps[c := now], clock := now)
  }

  function Pushed(s: State, i: nat, c: nat): (r: State)
    requires i < |s.threads| && |s.rings| == 1
    ensures |r.threads| == |s.threads| && |r.rings| == 1
  {
    s.(threads := s.threads[i := Idle], rings := [[c] + s.rings[0]])
  }

  lemma CrossingRuns()
    ensures var s := TwoReturning();
      && Typed(s) && OnBoard(Crossing(), |s.threads|)
      && var r := Run(s, Crossing()); r.rings == [[0, 1]] && r.stamps == [1, 2]
  {
    var s0 := TwoReturning();
    var s1 := Stamped(s0, 0, 0, 1);
    var s2 := Stamped(s1, 1, 1, 2);
    var s3 := Pushed(s2, 1, 1);
    var s4 := Pushed(s3, 0, 0);
    assert s3.rings[0] == [1] && s4.rings[0] == [0, 1] && s4.rings == [[0, 1]] && s4.stamps == [1, 2];
    StampLeads(s0, 0, 0, AT_ONE);
    StampLeads(s1, 1, 1, AT_TWO);
    PushLeads(s2, 1, 1, AT_TWO);
    PushLeads(s3, 0, 0, AT_TWO);
    TwoReturningIsTyped();
    hide *;
    var path, schedule := [s0, s1, s2, s3, s4], Crossing();
    forall k | 0 <= k < 4 ensures Leads(path[k], schedule[k], path[k + 1]) {
      assert k == 0 || k == 1 || k == 2 || k == 3;
    }
    PathRuns(path, schedule);
  }

  /**
   After such a crossing the older stamp is at the head, and an expiry between
   the two stamps keeps an entry it should remove.
   */
  lemma StampBeforeLockUnsorts()
    ensures var s := TwoReturning();
      && Typed(s) && OnBoard(Crossing(), |s.threads|)
      && var r := Run(s, Crossing());
      && View(r, 0) == [Entry(0, 1), Entry(1, 2)]
      && !Sorted(View(r, 0)) && Kept(View(r, 0), 2) != Fresh(View(r, 0), 2)
  {
    hide Typed, Run, Kept, Fresh, Sorted;
    CrossingRuns();
    ViewAtEnd(Run(TwoReturning(), Crossing()));
    OlderAhead();
  }

  lemma ViewAtEnd(s: State)
    requires Typed(s) && s.rings == [[0, 1]] && s.stamps == [1, 2]
    ensures View(s, 0) == [Entry(0, 1), Entry(1, 2)]
  {
  }

  lemma TwoReturningIsTyped()
    ensures Typed(TwoReturning())
  {
  }

  lemma StampLeads(s: State, i: nat, c: nat, ch: Choice)
    requires i < |s.threads| && s.threads[i] == Stamping(Serve, 0, [], c) && s.clock <= ch.now && c < |s.stamps|
    ensures Leads(s, Turn(i, ch), Stamped(s, i, c, ch.now))
  {
  }

  lemma PushLeads(s: State, i: nat, c: nat, ch: Choice)
    requires i < |s.threads| && s.threads[i] == Pushing(Serve, 0, [], c) && |s.rings| == 1
    ensures Leads(s, Turn(i, ch), Pushed(s, i, c))
  {
  }

  lemma OlderAhead()
    ensures var v := [Entry(0, 1), Entry(1, 2)]; !Sorted(v) && Kept(v, 2) != Fresh(v, 2)
  {
    var v := [Entry(0, 1), Entry(1, 2)];
    assert v[0].lastUsed < 2 <= v[1].lastUsed;
    TailScanIsFilterIff(v, 2);
  }
}
