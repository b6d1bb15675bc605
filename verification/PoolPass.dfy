/**
 One thread of the shared pool on its own (src/pool.c, src/request.c): what a
 request and each of the two maintenance passes do when no other thread moves.
 */
module PoolPass {
  import opened Common
  import opened StackSpec
  import opened TrackerTable
  import opened PoolMachine
  import opened PoolOrder
  import opened PoolCrossing

  /** Turns of thread i alone lead from the one state to the other. */
  ghost predicate Reaches(s: State, i: nat, s': State)
    requires Typed(s)
  {
    exists turns :: Solo(turns, i) && OnBoard(turns, |s.threads|) && Run(s, turns) == s'
  }

  predicate Solo(turns: seq<Turn>, i: nat) {
    forall k :: 0 <= k < |turns| ==> turns[k].thread == i
  }

  lemma ReachesSelf(s: State, i: nat)
    requires Typed(s)
    ensures Reaches(s, i, s)
  {
    hide Typed;
    assert Solo([], i) && Run(s, []) == s;
  }

  /** One more turn in front. */
  lemma ReachesBy(s: State, i: nat, ch: Choice, s': State)
    requires Typed(s) && i < |s.threads| && Typed(Step(s, i, ch)) && Reaches(Step(s, i, ch), i, s')
    ensures Reaches(s, i, s')
  {
    hide Typed, Step;
    StepTyped(s, i, ch);
    var next := Step(s, i, ch);
    var turns :| Solo(turns, i) && OnBoard(turns, |next.threads|) && Run(next, turns) == s';
    var all := [Turn(i, ch)] + turns;
    assert all[1..] == turns;
    assert Solo(all, i) && OnBoard(all, |s.threads|) && Run(s, all) == s';
  }

  lemma {:induction false} RunConcat(s: State, a: seq<Turn>, b: seq<Turn>)
    requires Typed(s) && OnBoard(a, |s.threads|) && OnBoard(b, |s.threads|)
    ensures OnBoard(a + b, |s.threads|) && Run(s, a + b) == Run(Run(s, a), b)
    decreases |a|
  {
    hide Typed, Step;
    if a == [] {
      assert a + b == b;
    } else {
      StepTyped(s, a[0].thread, a[0].choice);
      assert (a + b)[0] == a[0] && (a + b)[1..] == a[1..] + b;
      RunConcat(Step(s, a[0].thread, a[0].choice), a[1..], b);
    }
  }

  lemma ReachesTrans(s: State, i: nat, mid: State, s': State)
    requires Typed(s) && Reaches(s, i, mid) && Typed(mid) && Reaches(mid, i, s')
    ensures Reaches(s, i, s')
  {
    hide Typed;
    var a :| Solo(a, i) && OnBoard(a, |s.threads|) && Run(s, a) == mid;
    var b :| Solo(b, i) && OnBoard(b, |mid.threads|) && Run(mid, b) == s';
    RunConcat(s, a, b);
    assert Solo(a + b, i);
  }

  /** Any choice where the code makes none. */
  const ANY := Choice(Serve, 0, true, 0)
  const NO := Choice(Serve, 0, false, 0)

  /** A walk goes through the list from any place on and around to the start. */
  lemma WalkGoesAround(s: State, i: nat, job: Job, start: nat, k: nat)
    requires Typed(s) && i < |s.threads| && s.threads[i] == Idle
    requires var list := if job == Revive then s.partition.inactive else s.partition.active;
      start < |list| && k < |list|
    ensures var list := if job == Revive then s.partition.inactive else s.partition.active;
      var pc, n := Step(s, i, Choice(job, start, true, 0)).threads[i], |list|;
      && pc.Walk? && pc.job == job && |pc.rest| == n
      && pc.rest[k] == list[if start + k < n then start + k else start + k - n]
  {
    hide IsPartition, RingsAtHome;
  }

  // ------------------------------------------------------------- expiry

  lemma {:induction false} ChainIsFreed(s: State, i: nat, t: int, rest: seq<int>, chain: seq<nat>)
    requires Typed(s) && i < |s.threads| && s.threads[i] == Freeing(t, rest, chain)
    ensures Reaches(s, i, s.(threads := s.threads[i := Walk(Expire, rest)], destroyed := s.destroyed + chain))
    decreases |chain|
  {
    hide IsPartition, RingsAtHome, PcOk;
    var s' := Step(s, i, ANY);
    StepTyped(s, i, ANY);
    var end := s.(threads := s.threads[i := Walk(Expire, rest)], destroyed := s.destroyed + chain);
    if chain == [] {
      assert s' == end;
      ReachesSelf(s', i);
    } else {
      ChainIsFreed(s', i, t, rest, chain[1..]);
      assert s.destroyed + [chain[0]] + chain[1..] == s.destroyed + chain;
      assert s'.threads[i := Walk(Expire, rest)] == s.threads[i := Walk(Expire, rest)];
    }
    ReachesBy(s, i, ANY, end);
  }

  /** The ring without its expired tail. */
  function Cut(s: State, t: int, now: int): (ring: seq<nat>)
    requires Typed(s) && 0 <= t < |s.rings|
    ensures ring <= s.rings[t]
  {
    s.rings[t][..ExpiryCut(s, t, now)]
  }

  /** The cut is at the end of the entries last used within the last sixty seconds. */
  lemma CutIsAtSixtySeconds(s: State, t: int, now: int)
    requires Typed(s) && 0 <= t < |s.rings|
    ensures forall k :: 0 <= k < |s.rings[t]| ==> s.rings[t][k] < |s.stamps|
    ensures var kept := |Cut(s, t, now)|;
      && (forall k :: kept <= k < |s.rings[t]| ==> s.stamps[s.rings[t][k]] < now - 60000000)
      && (kept > 0 ==> s.stamps[s.rings[t][kept - 1]] >= now - 60000000)
  {
    hide IsPartition;
    RingIndexes(s, t);
    TailStartIsLongest(ViewOf(s.rings[t], s.stamps), now - EXPIRE_TIME);
  }

  /** What a pass does to the tracker in hand. */
  lemma OneIsExpired(s: State, i: nat, t: int, rest: seq<int>, now: int)
    requires Typed(s) && i < |s.threads| && s.threads[i] == Walk(Expire, [t] + rest)
    ensures 0 <= t < |s.rings|
    ensures Reaches(s, i, s.(threads := s.threads[i := Walk(Expire, rest)], rings := s.rings[t := Cut(s, t, now)],
                             destroyed := s.destroyed + s.rings[t][|Cut(s, t, now)|..]))
  {
    assert PcOk(s.threads[i], s.home, |s.rings|) && ([t] + rest)[0] == t && ([t] + rest)[1..] == rest;
    hide IsPartition, RingsAtHome, PcOk, TailStart, ViewOf;
    var chain := s.rings[t][|Cut(s, t, now)|..];
    var end := s.(threads := s.threads[i := Walk(Expire, rest)], rings := s.rings[t := Cut(s, t, now)],
                  destroyed := s.destroyed + chain);
    var one := Step(s, i, ANY);
    StepTyped(s, i, ANY);
    assert one.threads[i] == Expiring(t, rest);
    var ch := Choice(Expire, 0, true, now);
    var two := Step(one, i, ch);
    StepTyped(one, i, ch);
    assert ExpiryCut(one, t, now) == ExpiryCut(s, t, now);
    assert two.threads[i] == Freeing(t, rest, chain);
    ChainIsFreed(two, i, t, rest, chain);
    assert two.(threads := two.threads[i := Walk(Expire, rest)], destroyed := two.destroyed + chain) == end;
    hide Step, Typed, Reaches;
    ReachesBy(one, i, ch, end);
    ReachesBy(s, i, ANY, end);
  }

  /** What a whole pass leaves: the rings of the listed trackers cut, everything else as it was. */
  predicate Expired(s: State, i: nat, list: seq<int>, now: int, s': State)
    requires Typed(s) && i < |s.threads|
  {
    && s' == s.(threads := s'.threads, rings := s'.rings, destroyed := s'.destroyed)
    && s'.threads == s.threads[i := Idle] && |s'.rings| == |s.rings|
    && forall t :: 0 <= t < |s.rings| ==> s'.rings[t] == if t in list then Cut(s, t, now) else s.rings[t]
  }

  lemma {:induction false} ListIsExpired(s: State, i: nat, list: seq<int>, now: int) returns (s': State)
    requires Typed(s) && i < |s.threads| && s.threads[i] == Walk(Expire, list) && Distinct(list)
    ensures Reaches(s, i, s') && Expired(s, i, list, now, s')
    decreases |list|
  {
    if list == [] {
      s' := Step(s, i, ANY);
      StepTyped(s, i, ANY);
      ReachesSelf(s', i);
      ReachesBy(s, i, ANY, s');
    } else {
      var t, rest := list[0], list[1..];
      assert list == [t] + rest;
      OneIsExpired(s, i, t, rest, now);
      hide Reaches, Typed, Step, Cut, ExpiryCut, Expired;
      var mid := s.(threads := s.threads[i := Walk(Expire, rest)], rings := s.rings[t := Cut(s, t, now)],
                    destroyed := s.destroyed + s.rings[t][|Cut(s, t, now)|..]);
      ReachedIsTyped(s, i, mid);
      s' := ListIsExpired(mid, i, rest, now);
      ReachesTrans(s, i, mid, s');
      OthersAreCutAlike(s, mid, now);
      ExpiredOneMore(s, i, t, rest, now, mid, s');
    }
  }

  lemma ExpiredOneMore(s: State, i: nat, t: int, rest: seq<int>, now: int, mid: State, s': State)
    requires Typed(s) && Typed(mid) && i < |s.threads| == |mid.threads| && 0 <= t < |s.rings| && Distinct([t] + rest)
    requires mid == s.(threads := s.threads[i := Walk(Expire, rest)], rings := s.rings[t := Cut(s, t, now)],
                       destroyed := mid.destroyed)
    requires forall u :: 0 <= u < |s.rings| && mid.rings[u] == s.rings[u] ==> Cut(mid, u, now) == Cut(s, u, now)
    requires Expired(mid, i, rest, now, s')
    ensures Expired(s, i, [t] + rest, now, s')
  {
    hide Typed, Cut;
    var list := [t] + rest;
    assert t !in rest by {
      assert forall k :: 0 <= k < |rest| ==> list[0] == t && list[k + 1] == rest[k];
    }
    assert forall u :: u in list <==> u == t || u in rest;
    assert s'.threads == s.threads[i := Idle];
  }

  lemma OthersAreCutAlike(s: State, mid: State, now: int)
    requires Typed(s) && Typed(mid) && |mid.rings| == |s.rings| && mid.stamps == s.stamps
    ensures forall u :: 0 <= u < |s.rings| && mid.rings[u] == s.rings[u] ==> Cut(mid, u, now) == Cut(s, u, now)
  {
  }

  lemma ReachedIsTyped(s: State, i: nat, s': State)
    requires Typed(s) && Reaches(s, i, s')
    ensures Typed(s') && |s'.threads| == |s.threads| && |s'.rings| == |s.rings|
  {
  }

  /**
   Maintenance, first half: a pass that is not disturbed walks the active
   trackers, cuts the expired tail off each of their rings, destroys what it cut
   off, and touches nothing else.
   */
  lemma UndisturbedExpiry(s: State, i: nat, start: nat, now: int) returns (s': State)
    requires Typed(s) && i < |s.threads| && s.threads[i] == Idle
    ensures Reaches(s, i, s') && Expired(s, i, s.partition.active, now, s')
  {
    var active := s.partition.active;
    var ch := Choice(Expire, start, true, now);
    StepTyped(s, i, ch);
    var one := Step(s, i, ch);
    if active == [] {
      s' := one;
      assert s' == s.(threads := s.threads[i := Idle]) && s.threads[i := Idle] == s.threads;
      ReachesSelf(s', i);
      ReachesBy(s, i, ch, s');
    } else {
      var list := Snapshot(active, start);
      if start < |active| {
        RotatedVisitsAll(active, start);
      }
      s' := ListIsExpired(one, i, list, now);
      ReachesBy(s, i, ch, s');
      assert forall t :: t in list <==> t in active;
      OthersAreCutAlike(s, one, now);
    }
  }

  // ------------------------------------------------------------- revival

  /** What asking one inactive tracker leaves. */
  predicate Asked(s: State, i: nat, t: int, rest: seq<int>, answers: bool, s': State)
    requires Typed(s) && i < |s.threads|
  {
    && s'.threads == s.threads[i := Walk(Revive, rest)]
    && s'.partition == (if answers then Activate(s.partition, t) else s.partition)
    && |s'.rings| == |s.rings| && 0 <= t < |s.rings| && s'.rings == s.rings[t := s'.rings[t]]
    && (answers ==> s'.rings[t] != [])
  }

  /** Where a thread goes once its connection is back in the pool. */
  function Done(job: Job, rest: seq<int>): Pc {
    if job == Serve then Idle else Walk(job, rest)
  }

  /** Only the ring of `t`, the thread's place, stamps and clock differ. */
  predicate PutBack(s: State, i: nat, t: int, c: nat, pc: Pc, s': State)
    requires i < |s.threads| && 0 <= t < |s.rings|
  {
    s' == s.(threads := s.threads[i := pc], rings := s.rings[t := [c] + s.rings[t]],
             stamps := s'.stamps, clock := s'.clock)
  }

  /** Stamp and push. */
  lemma GoesBack(s: State, i: nat, job: Job, t: int, rest: seq<int>, c: nat) returns (s': State)
    requires Typed(s) && i < |s.threads| && s.threads[i] == Stamping(job, t, rest, c)
    ensures 0 <= t < |s.rings| && Reaches(s, i, s') && PutBack(s, i, t, c, Done(job, rest), s')
  {
    assert PcOk(s.threads[i], s.home, |s.rings|);
    assert Held(s.threads[i])[0] == c;
    hide IsPartition, RingsAtHome, PcOk;
    var one := Step(s, i, ANY);
    StepTyped(s, i, ANY);
    assert one == s.(threads := s.threads[i := Pushing(job, t, rest, c)], stamps := one.stamps, clock := one.clock);
    s' := Step(one, i, ANY);
    StepTyped(one, i, ANY);
    assert s'.threads == s.threads[i := Done(job, rest)];
    hide Step, Typed, Reaches;
    ReachesSelf(s', i);
    ReachesBy(one, i, ANY, s');
    ReachesBy(s, i, ANY, s');
  }

  lemma GoodAnswer(s: State, i: nat, t: int, rest: seq<int>, c: nat, isNew: bool) returns (s': State)
    requires Typed(s) && i < |s.threads| && s.threads[i] == Using(Revive, t, rest, c, isNew)
    ensures 0 <= t < |s.rings| && Reaches(s, i, s')
    ensures PutBack(s.(partition := Activate(s.partition, t)), i, t, c, Walk(Revive, rest), s')
  {
    assert PcOk(s.threads[i], s.home, |s.rings|);
    hide IsPartition, RingsAtHome, PcOk, Activate;
    var one := Step(s, i, ANY);
    StepTyped(s, i, ANY);
    assert one == s.(threads := s.threads[i := Activating(Revive, t, rest, c)]);
    var two := Step(one, i, ANY);
    StepTyped(one, i, ANY);
    var active := s.(partition := Activate(s.partition, t));
    assert two == active.(threads := s.threads[i := Stamping(Revive, t, rest, c)]);
    hide Step, Typed, Reaches;
    s' := GoesBack(two, i, Revive, t, rest, c);
    assert s'.threads == s.threads[i := Walk(Revive, rest)];
    ReachesBy(one, i, ANY, s');
    ReachesBy(s, i, ANY, s');
  }

  lemma BadAnswer(s: State, i: nat, job: Job, t: int, rest: seq<int>, c: nat, isNew: bool)
    requires Typed(s) && i < |s.threads| && s.threads[i] == Using(job, t, rest, c, isNew)
    ensures var pc := if job == Serve && !isNew then Popping(job, t, rest) else Walk(job, rest);
      Reaches(s, i, s.(threads := s.threads[i := pc], destroyed := s.destroyed + [c]))
  {
    hide IsPartition, RingsAtHome, PcOk;
    var one := Step(s, i, NO);
    StepTyped(s, i, NO);
    assert one == s.(threads := s.threads[i := Discarding(job, t, rest, c, isNew)]);
    var two := Step(one, i, ANY);
    StepTyped(one, i, ANY);
    var pc := if job == Serve && !isNew then Popping(job, t, rest) else Walk(job, rest);
    assert two == s.(threads := s.threads[i := pc], destroyed := s.destroyed + [c]) by {
      assert one.threads[i := pc] == s.threads[i := pc];
    }
    hide Step, Typed, Reaches;
    ReachesSelf(two, i);
    ReachesBy(one, i, ANY, two);
    ReachesBy(s, i, NO, two);
  }

  lemma HeldAnswer(s: State, i: nat, t: int, rest: seq<int>, c: nat, isNew: bool, answers: bool) returns (s': State)
    requires Typed(s) && i < |s.threads| && s.threads[i] == Using(Revive, t, rest, c, isNew)
    ensures Reaches(s, i, s') && Asked(s, i, t, rest, answers, s')
  {
    assert PcOk(s.threads[i], s.home, |s.rings|);
    hide Typed, Reaches, Activate;
    if answers {
      s' := GoodAnswer(s, i, t, rest, c, isNew);
    } else {
      BadAnswer(s, i, Revive, t, rest, c, isNew);
      s' := s.(threads := s.threads[i := Walk(Revive, rest)], destroyed := s.destroyed + [c]);
      assert s'.rings == s.rings[t := s.rings[t]];
    }
  }

  lemma NobodyThere(s: State, i: nat, job: Job, t: int, rest: seq<int>)
    requires Typed(s) && i < |s.threads| && s.threads[i] == Connecting(job, t, rest) && t !in s.partition.active
    ensures Reaches(s, i, s.(threads := s.threads[i := Walk(job, rest)]))
  {
    hide IsPartition, RingsAtHome, PcOk;
    var one := Step(s, i, NO);
    StepTyped(s, i, NO);
    assert one == s.(threads := s.threads[i := Deactivating(job, t, rest)]);
    var two := Step(one, i, ANY);
    StepTyped(one, i, ANY);
    assert two == s.(threads := s.threads[i := Walk(job, rest)]) by {
      assert one.threads[i := Walk(job, rest)] == s.threads[i := Walk(job, rest)];
    }
    hide Step, Typed, Reaches;
    ReachesSelf(two, i);
    ReachesBy(one, i, ANY, two);
    ReachesBy(s, i, NO, two);
  }

  /** From the walk to the ring's head, or to a connect when the ring is empty. */
  lemma TakesNext(s: State, i: nat, job: Job, t: int, rest: seq<int>) returns (s': State)
    requires Typed(s) && i < |s.threads| && s.threads[i] == Walk(job, [t] + rest) && job != Expire
    ensures 0 <= t < |s.rings| && Reaches(s, i, s') && Typed(s')
    ensures s' == if s.rings[t] == [] then s.(threads := s.threads[i := Connecting(job, t, rest)])
      else s.(threads := s.threads[i := Using(job, t, rest, s.rings[t][0], false)],
              rings := s.rings[t := s.rings[t][1..]])
  {
    var one := s.(threads := s.threads[i := Popping(job, t, rest)]);
    WalksOn(s, i, job, t, rest);
    hide IsPartition, RingsAtHome, PcOk, Reaches;
    s' := Step(one, i, ANY);
    StepTyped(one, i, ANY);
    ReachesSelf(s', i);
    ReachesBy(one, i, ANY, s');
    hide Step, Typed;
    ReachesBy(s, i, ANY, s');
  }

  lemma WalksOn(s: State, i: nat, job: Job, t: int, rest: seq<int>)
    requires Typed(s) && i < |s.threads| && s.threads[i] == Walk(job, [t] + rest) && job != Expire
    ensures 0 <= t < |s.rings| && Typed(Step(s, i, ANY))
    ensures Step(s, i, ANY) == s.(threads := s.threads[i := Popping(job, t, rest)])
  {
    assert PcOk(s.threads[i], s.home, |s.rings|) && ([t] + rest)[0] == t && ([t] + rest)[1..] == rest;
    hide IsPartition, RingsAtHome, PcOk;
    StepTyped(s, i, ANY);
  }

  lemma Connects(s: State, i: nat, job: Job, t: int, rest: seq<int>) returns (s': State)
    requires Typed(s) && i < |s.threads| && s.threads[i] == Connecting(job, t, rest)
    ensures Reaches(s, i, s') && Typed(s')
    ensures s' == s.(threads := s.threads[i := Using(job, t, rest, |s.home|, true)],
                     home := s.home + [t], stamps := s.stamps + [0])
  {
    hide IsPartition, RingsAtHome, PcOk;
    s' := Step(s, i, ANY);
    StepTyped(s, i, ANY);
    ReachesSelf(s', i);
    ReachesBy(s, i, ANY, s');
  }

  lemma OneIsAsked(s: State, i: nat, t: int, rest: seq<int>, answers: bool) returns (s': State)
    requires Typed(s) && i < |s.threads| && s.threads[i] == Walk(Revive, [t] + rest) && t !in s.partition.active
    ensures Reaches(s, i, s') && Asked(s, i, t, rest, answers, s')
  {
    hide Step, Typed, Reaches, Activate;
    var mid := TakesNext(s, i, Revive, t, rest);
    if s.rings[t] != [] {
      s' := HeldAnswer(mid, i, t, rest, s.rings[t][0], false, answers);
    } else if answers {
      var held := Connects(mid, i, Revive, t, rest);
      s' := HeldAnswer(held, i, t, rest, |s.home|, true, answers);
      ReachesTrans(mid, i, held, s');
    } else {
      NobodyThere(mid, i, Revive, t, rest);
      s' := mid.(threads := mid.threads[i := Walk(Revive, rest)]);
    }
    assert s'.threads == s.threads[i := Walk(Revive, rest)] && s'.rings == s.rings[t := s'.rings[t]];
    ReachesTrans(s, i, mid, s');
  }

  /** What a whole pass leaves: exactly the listed trackers that answered have become active, with a connection each. */
  predicate Revived(s: State, i: nat, list: seq<int>, answers: int -> bool, s': State)
    requires Typed(s) && i < |s.threads|
  {
    && s'.threads == s.threads[i := Idle] && |s'.rings| == |s.rings|
    && (forall t :: 0 <= t < |s.rings| ==>
          && (t in s'.partition.active <==> t in s.partition.active || (t in list && answers(t)))
          && (t in s'.partition.inactive <==> t in s.partition.inactive && !(t in list && answers(t)))
          && (t in list && answers(t) ==> s'.rings[t] != [])
          && (t !in list ==> s'.rings[t] == s.rings[t]))
  }

  lemma {:induction false} ListIsAsked(s: State, i: nat, list: seq<int>, answers: int -> bool) returns (s': State)
    requires Typed(s) && i < |s.threads| && s.threads[i] == Walk(Revive, list) && Distinct(list)
    requires forall k :: 0 <= k < |list| ==> list[k] in s.partition.inactive
    ensures Reaches(s, i, s') && Revived(s, i, list, answers, s')
    decreases |list|
  {
    if list == [] {
      s' := Step(s, i, ANY);
      StepTyped(s, i, ANY);
      ReachesSelf(s', i);
      ReachesBy(s, i, ANY, s');
    } else {
      hide Activate, IsPartition, Reaches, Step, Typed;
      var t, rest := list[0], list[1..];
      assert list == [t] + rest && t in s.partition.inactive;
      InactiveIsNotActive(s, t);
      var mid := OneIsAsked(s, i, t, rest, answers(t));
      ReachedIsTyped(s, i, mid);
      ActivateMoves(s.partition, t, |s.rings|);
      forall k | 0 <= k < |rest| ensures rest[k] in mid.partition.inactive {
        assert rest[k] == list[k + 1] && rest[k] != t;
      }
      s' := ListIsAsked(mid, i, rest, answers);
      ReachesTrans(s, i, mid, s');
      RevivedOneMore(s, i, t, rest, answers, mid, s');
    }
  }

  lemma RevivedOneMore(s: State, i: nat, t: int, rest: seq<int>, answers: int -> bool, mid: State, s': State)
    requires Typed(s) && Typed(mid) && i < |s.threads| == |mid.threads| && Distinct([t] + rest)
    requires t in s.partition.inactive && Asked(s, i, t, rest, answers(t), mid) && Revived(mid, i, rest, answers, s')
    ensures Revived(s, i, [t] + rest, answers, s')
  {
    InactiveIsNotActive(s, t);
    ActivateMoves(s.partition, t, |s.rings|);
    hide Activate, IsPartition, Typed;
    var list := [t] + rest;
    assert list[0] == t && list[1..] == rest;
    assert t !in rest by {
      assert forall k :: 0 <= k < |rest| ==> list[k + 1] == rest[k];
    }
    assert forall u :: u in list <==> u == t || u in rest;
    assert s'.threads == s.threads[i := Idle];
  }

  lemma InactiveIsNotActive(s: State, t: int)
    requires Typed(s) && t in s.partition.inactive
    ensures t !in s.partition.active && IsPartition(s.partition, |s.rings|)
  {
    assert forall k :: 0 <= k < |s.partition.active| ==> s.partition.active[k] !in s.partition.inactive;
  }

  /**
   Maintenance, second half: a pass that is not disturbed asks the inactive
   trackers.  Exactly those that can be reached and answer become active, each
   with a pooled connection; the others stay inactive.
   */
  lemma UndisturbedRevival(s: State, i: nat, start: nat, answers: int -> bool) returns (s': State)
    requires Typed(s) && i < |s.threads| && s.threads[i] == Idle
    ensures Reaches(s, i, s') && Revived(s, i, s.partition.inactive, answers, s')
  {
    var inactive := s.partition.inactive;
    var ch := Choice(Revive, start, true, 0);
    StepTyped(s, i, ch);
    var one := Step(s, i, ch);
    if inactive == [] {
      s' := one;
      assert s'.threads == s.threads[i := Idle];
      ReachesSelf(s', i);
      ReachesBy(s, i, ch, s');
    } else {
      var list := Snapshot(inactive, start);
      if start < |inactive| {
        RotatedVisitsAll(inactive, start);
      }
      assert forall k :: 0 <= k < |list| ==> list[k] in list;
      s' := ListIsAsked(one, i, list, answers);
      ReachesBy(s, i, ch, s');
    }
  }

  // ------------------------------------------------------------- a request

  /**
   A request at one tracker: the pooled connections are used newest first until
   the j-th answers; it ends on top, the ones before it are destroyed.
   */
  lemma {:induction false} PooledAnswers(s: State, i: nat, t: int, rest: seq<int>, j: nat) returns (s': State)
    requires Typed(s) && i < |s.threads| && s.threads[i] == Popping(Serve, t, rest)
    requires 0 <= t < |s.rings| && j < |s.rings[t]|
    ensures Reaches(s, i, s')
    ensures s'.threads == s.threads[i := Idle] && s'.partition == s.partition && s'.home == s.home
    ensures s'.rings == s.rings[t := s.rings[t][j..]] && s'.destroyed == s.destroyed + s.rings[t][..j]
    decreases j
  {
    var ring, c := s.rings[t], s.rings[t][0];
    if j == 0 {
      s' := HeadAnswers(s, i, t, rest);
      assert ring[0..] == ring && s.destroyed + ring[..0] == s.destroyed;
    } else {
      var mid := HeadFails(s, i, t, rest);
      hide Typed, Reaches;
      s' := PooledAnswers(mid, i, t, rest, j - 1);
      ReachesTrans(s, i, mid, s');
      WithoutHead(ring, j, s.destroyed);
      assert s'.rings == s.rings[t := ring[j..]];
    }
  }

  lemma WithoutHead(ring: seq<nat>, j: nat, destroyed: seq<nat>)
    requires 0 < j < |ring|
    ensures ring[1..][j - 1..] == ring[j..] && destroyed + [ring[0]] + ring[1..][..j - 1] == destroyed + ring[..j]
  {
  }

  lemma HeadFails(s: State, i: nat, t: int, rest: seq<int>) returns (s': State)
    requires Typed(s) && i < |s.threads| && s.threads[i] == Popping(Serve, t, rest)
    requires 0 <= t < |s.rings| && s.rings[t] != []
    ensures Reaches(s, i, s') && Typed(s')
    ensures s' == s.(rings := s.rings[t := s.rings[t][1..]], destroyed := s.destroyed + [s.rings[t][0]])
  {
    var c := s.rings[t][0];
    var one := PopsHead(s, i, t, rest);
    hide Typed, Reaches;
    BadAnswer(one, i, Serve, t, rest, c, false);
    s' := one.(threads := one.threads[i := Popping(Serve, t, rest)], destroyed := one.destroyed + [c]);
    assert one.threads[i := Popping(Serve, t, rest)] == s.threads;
    ReachedIsTyped(one, i, s');
    ReachesTrans(s, i, one, s');
  }

  lemma HeadAnswers(s: State, i: nat, t: int, rest: seq<int>) returns (s': State)
    requires Typed(s) && i < |s.threads| && s.threads[i] == Popping(Serve, t, rest)
    requires 0 <= t < |s.rings| && s.rings[t] != []
    ensures Reaches(s, i, s') && s' == s.(threads := s.threads[i := Idle], stamps := s'.stamps, clock := s'.clock)
  {
    var c := s.rings[t][0];
    var one := PopsHead(s, i, t, rest);
    hide Typed, Reaches, PutBack;
    var two := Answers(one, i, t, rest, c);
    s' := GoesBack(two, i, Serve, t, rest, c);
    ReachesTrans(one, i, two, s');
    ReachesTrans(s, i, one, s');
    HeadIsBack(s, i, t, c, two, s');
  }

  lemma HeadIsBack(s: State, i: nat, t: int, c: nat, two: State, s': State)
    requires i < |s.threads| && 0 <= t < |s.rings| && s.rings[t] != [] && c == s.rings[t][0]
    requires two == s.(threads := two.threads, rings := s.rings[t := s.rings[t][1..]])
    requires |two.threads| == |s.threads| && two.threads[i := Idle] == s.threads[i := Idle]
    requires PutBack(two, i, t, c, Idle, s')
    ensures s' == s.(threads := s.threads[i := Idle], stamps := s'.stamps, clock := s'.clock)
  {
    assert [c] + s.rings[t][1..] == s.rings[t];
    assert s'.rings == s.rings;
  }

  lemma PopsHead(s: State, i: nat, t: int, rest: seq<int>) returns (s': State)
    requires Typed(s) && i < |s.threads| && s.threads[i] == Popping(Serve, t, rest)
    requires 0 <= t < |s.rings| && s.rings[t] != []
    ensures Reaches(s, i, s') && Typed(s')
    ensures s' == s.(threads := s.threads[i := Using(Serve, t, rest, s.rings[t][0], false)],
                     rings := s.rings[t := s.rings[t][1..]])
  {
    hide IsPartition, RingsAtHome, PcOk;
    s' := Step(s, i, ANY);
    StepTyped(s, i, ANY);
    ReachesSelf(s', i);
    ReachesBy(s, i, ANY, s');
  }

  lemma Answers(s: State, i: nat, t: int, rest: seq<int>, c: nat) returns (s': State)
    requires Typed(s) && i < |s.threads| && s.threads[i] == Using(Serve, t, rest, c, false)
    ensures Reaches(s, i, s') && Typed(s') && s' == s.(threads := s.threads[i := Stamping(Serve, t, rest, c)])
  {
    hide IsPartition, RingsAtHome, PcOk;
    s' := Step(s, i, ANY);
    StepTyped(s, i, ANY);
    ReachesSelf(s', i);
    ReachesBy(s, i, ANY, s');
  }

  /** None of them answers: all are destroyed. */
  lemma {:induction false} PooledAllFail(s: State, i: nat, t: int, rest: seq<int>) returns (s': State)
    requires Typed(s) && i < |s.threads| && s.threads[i] == Popping(Serve, t, rest) && 0 <= t < |s.rings|
    ensures Reaches(s, i, s') && Typed(s')
    ensures s' == s.(rings := s.rings[t := []], destroyed := s.destroyed + s.rings[t])
    decreases |s.rings[t]|
  {
    hide Typed, Reaches;
    var ring := s.rings[t];
    if ring == [] {
      s' := s;
      ReachesSelf(s, i);
      assert s.rings[t := []] == s.rings && s.destroyed + [] == s.destroyed;
    } else {
      var mid := HeadFails(s, i, t, rest);
      s' := PooledAllFail(mid, i, t, rest);
      ReachesTrans(s, i, mid, s');
      assert s.destroyed + [ring[0]] + ring[1..] == s.destroyed + ring;
      assert s'.rings == s.rings[t := []];
    }
  }

  /**
   The fresh connect after that, when it succeeds: a connection that gets its
   reply is pooled and ends the request, one that does not is destroyed and the
   request goes on to the next tracker.
   */
  lemma FreshConnect(s: State, i: nat, t: int, rest: seq<int>, good: bool) returns (s': State)
    requires Typed(s) && i < |s.threads| && s.threads[i] == Popping(Serve, t, rest)
    requires 0 <= t < |s.rings| && s.rings[t] == []
    ensures Reaches(s, i, s') && s'.threads == s.threads[i := if good then Idle else Walk(Serve, rest)]
    ensures s'.rings == (if good then s.rings[t := [|s.home|]] else s.rings)
    ensures s'.destroyed == (if good then s.destroyed else s.destroyed + [|s.home|])
    ensures s'.home == s.home + [t] && s'.partition == s.partition
  {
    var one := RingIsEmpty(s, i, t, rest);
    hide Typed, Reaches;
    var held := Connects(one, i, Serve, t, rest);
    s' := FreshIsUsed(held, i, t, rest, |s.home|, good);
    ReachesTrans(one, i, held, s');
    ReachesTrans(s, i, one, s');
    var pc := if good then Idle else Walk(Serve, rest);
    assert held.threads[i := pc] == s.threads[i := pc];
  }

  /** And when it is refused: the tracker leaves the active list, and the request goes on. */
  lemma FreshRefused(s: State, i: nat, t: int, rest: seq<int>) returns (s': State)
    requires Typed(s) && i < |s.threads| && s.threads[i] == Popping(Serve, t, rest)
    requires 0 <= t < |s.rings| && s.rings[t] == []
    ensures Reaches(s, i, s')
    ensures s' == s.(threads := s.threads[i := Walk(Serve, rest)], partition := Deactivate(s.partition, t))
  {
    var one := RingIsEmpty(s, i, t, rest);
    hide Typed, Reaches, Deactivate;
    s' := GivesUp(one, i, t, rest);
    assert s'.threads == s.threads[i := Walk(Serve, rest)];
    ReachesTrans(s, i, one, s');
  }

  lemma FreshIsUsed(s: State, i: nat, t: int, rest: seq<int>, c: nat, good: bool) returns (s': State)
    requires Typed(s) && i < |s.threads| && s.threads[i] == Using(Serve, t, rest, c, true)
    requires 0 <= t < |s.rings| && s.rings[t] == []
    ensures Reaches(s, i, s') && s'.threads == s.threads[i := if good then Idle else Walk(Serve, rest)]
    ensures s'.rings == (if good then s.rings[t := [c]] else s.rings)
    ensures s'.destroyed == (if good then s.destroyed else s.destroyed + [c])
    ensures s'.home == s.home && s'.partition == s.partition
  {
    hide Typed, Reaches;
    if good {
      var two := NewAnswers(s, i, t, rest);
      s' := GoesBack(two, i, Serve, t, rest, c);
      ReachesTrans(s, i, two, s');
      assert [c] + s.rings[t] == [c];
      assert s'.threads == s.threads[i := Idle];
    } else {
      BadAnswer(s, i, Serve, t, rest, c, true);
      s' := s.(threads := s.threads[i := Walk(Serve, rest)], destroyed := s.destroyed + [c]);
    }
  }

  lemma RingIsEmpty(s: State, i: nat, t: int, rest: seq<int>) returns (s': State)
    requires Typed(s) && i < |s.threads| && s.threads[i] == Popping(Serve, t, rest)
    requires 0 <= t < |s.rings| && s.rings[t] == []
    ensures Reaches(s, i, s') && Typed(s') && s' == s.(threads := s.threads[i := Connecting(Serve, t, rest)])
  {
    hide IsPartition, RingsAtHome, PcOk;
    s' := Step(s, i, ANY);
    StepTyped(s, i, ANY);
    ReachesSelf(s', i);
    ReachesBy(s, i, ANY, s');
  }

  lemma NewAnswers(s: State, i: nat, t: int, rest: seq<int>) returns (s': State)
    requires Typed(s) && i < |s.threads| && s.threads[i].Using?
    requires s.threads[i] == Using(Serve, t, rest, s.threads[i].c, true)
    ensures Reaches(s, i, s') && Typed(s')
    ensures s' == s.(threads := s.threads[i := Stamping(Serve, t, rest, s.threads[i].c)])
  {
    hide IsPartition, RingsAtHome, PcOk;
    s' := Step(s, i, ANY);
    StepTyped(s, i, ANY);
    ReachesSelf(s', i);
    ReachesBy(s, i, ANY, s');
  }

  lemma GivesUp(s: State, i: nat, t: int, rest: seq<int>) returns (s': State)
    requires Typed(s) && i < |s.threads| && s.threads[i] == Connecting(Serve, t, rest)
    requires 0 <= t < |s.rings| && s.rings[t] == []
    ensures Reaches(s, i, s')
    ensures s' == s.(threads := s.threads[i := Walk(Serve, rest)], partition := Deactivate(s.partition, t))
  {
    hide IsPartition, RingsAtHome, PcOk, Deactivate;
    var one := Step(s, i, NO);
    StepTyped(s, i, NO);
    assert one == s.(threads := s.threads[i := Deactivating(Serve, t, rest)]);
    var two := Step(one, i, ANY);
    StepTyped(one, i, ANY);
    ReachesSelf(two, i);
    s' := two;
    if t in s.partition.active {
      s' := Step(two, i, ANY);
      StepTyped(two, i, ANY);
      ReachesSelf(s', i);
      ReachesBy(two, i, ANY, s');
    }
    assert s'.threads == s.threads[i := Walk(Serve, rest)];
    hide Step, Typed, Reaches;
    ReachesBy(one, i, ANY, s');
    ReachesBy(s, i, NO, s');
  }
}
