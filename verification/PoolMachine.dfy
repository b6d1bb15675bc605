/**
 A tracker pool shared by any number of threads (src/pool.c, src/request.c).
 Every locked section, every network wait and every unlocked write is one step
 of one thread; a schedule picks the thread and what the outside world answers.
 Any thread may serve requests or do maintenance, so one maintenance thread
 beside any number of request threads is covered.
 */
module PoolMachine {
  import opened Common
  import opened StackSpec
  import opened TrackerTable

  /** mfs_request_do, mfs_pool_test_inactive_trackers, mfs_pool_expire_active_trackers. */
  datatype Job = Serve | Revive | Expire

  /** `t` is the tracker in hand, `rest` the trackers of the snapshot still to come, `c` a connection. */
  datatype Pc =
    | Idle
    | Walk(job: Job, rest: seq<int>)
    | Popping(job: Job, t: int, rest: seq<int>)
    | Connecting(job: Job, t: int, rest: seq<int>)
    | Using(job: Job, t: int, rest: seq<int>, c: nat, isNew: bool)
    | Discarding(job: Job, t: int, rest: seq<int>, c: nat, isNew: bool)
    | Activating(job: Job, t: int, rest: seq<int>, c: nat)
    | Stamping(job: Job, t: int, rest: seq<int>, c: nat)
    | Pushing(job: Job, t: int, rest: seq<int>, c: nat)
    | Deactivating(job: Job, t: int, rest: seq<int>)
    | Draining(job: Job, t: int, rest: seq<int>)
    | DrainDestroying(job: Job, t: int, rest: seq<int>, c: nat)
    | Expiring(t: int, rest: seq<int>)
    | Freeing(t: int, rest: seq<int>, chain: seq<nat>)

  /** Connections are numbered as they are made: `home` is the tracker each was connected to, `stamps` its last_used. */
  datatype State = State(
    partition: Partition,
    rings: seq<seq<nat>>,
    threads: seq<Pc>,
    home: seq<int>,
    stamps: seq<int>,
    destroyed: seq<nat>,
    clock: int)

  /** What the world decides at a step: the job begun, the random start, success, and the time. */
  datatype Choice = Choice(job: Job, start: nat, ok: bool, now: int)

  datatype Turn = Turn(thread: nat, choice: Choice)

  // MFS_CONNECTION_EXPIRE_TIME, in microseconds
  const EXPIRE_TIME := 60 * 1000000

  // ------------------------------------------------------------- ownership

  /** The connections a thread has in its hands, chains included. */
  function Held(pc: Pc): seq<nat> {
    match pc
    case Using(_, _, _, c, _) => [c]
    case Discarding(_, _, _, c, _) => [c]
    case Activating(_, _, _, c) => [c]
    case Stamping(_, _, _, c) => [c]
    case Pushing(_, _, _, c) => [c]
    case DrainDestroying(_, _, _, c) => [c]
    case Freeing(_, _, chain) => chain
    case _ => []
  }

  function Hands(threads: seq<Pc>): (h: seq<seq<nat>>)
    ensures |h| == |threads| && forall i :: 0 <= i < |h| ==> h[i] == Held(threads[i])
  {
    seq(|threads|, i requires 0 <= i < |threads| => Held(threads[i]))
  }

  /** Everything in a family of lists, with multiplicity. */
  ghost function Bag(lists: seq<seq<nat>>): multiset<nat> {
    if lists == [] then multiset{} else Bag(lists[..|lists| - 1]) + multiset(lists[|lists| - 1])
  }

  /** Each of 0..n once. */
  ghost function Upto(n: nat): multiset<nat> {
    if n == 0 then multiset{} else Upto(n - 1) + multiset{n - 1}
  }

  /** Nothing is lost and nothing is doubled: rings, hands and graveyard together hold every connection made, once. */
  ghost predicate Conserved(s: State) {
    Bag(s.rings) + Bag(Hands(s.threads)) + multiset(s.destroyed) == Upto(|s.home|)
  }

  // ----------------------------------------------------------------- steps

  function ViewOf(ids: seq<nat>, stamps: seq<int>): (s: Stack)
    requires forall i :: 0 <= i < |ids| ==> ids[i] < |stamps|
    ensures |s| == |ids| && forall i :: 0 <= i < |s| ==> s[i] == Entry(ids[i], stamps[ids[i]])
  {
    seq(|ids|, i requires 0 <= i < |ids| => Entry(ids[i], stamps[ids[i]]))
  }

  predicate ValidIndexes(rest: seq<int>, n: nat) {
    forall i :: 0 <= i < |rest| ==> 0 <= rest[i] < n
  }

  /** What a program counter may say about trackers and the connections in hand. */
  predicate PcOk(pc: Pc, home: seq<int>, n: nat) {
    && (!pc.Idle? ==> ValidIndexes(pc.rest, n))
    && (!pc.Idle? && !pc.Walk? ==> 0 <= pc.t < n)
    && (forall i :: 0 <= i < |Held(pc)| ==> Held(pc)[i] < |home| && home[Held(pc)[i]] == pc.t)
  }

  /** Every pooled connection is in the ring of the tracker it was connected to. */
  predicate RingsAtHome(rings: seq<seq<nat>>, home: seq<int>) {
    forall t, i :: 0 <= t < |rings| && 0 <= i < |rings[t]| ==> rings[t][i] < |home| && home[rings[t][i]] == t
  }

  /** All a step needs to be defined. */
  predicate Typed(s: State) {
    && |s.stamps| == |s.home|
    && RingsAtHome(s.rings, s.home)
    && (forall i :: 0 <= i < |s.threads| ==> PcOk(s.threads[i], s.home, |s.rings|))
    && IsPartition(s.partition, |s.rings|)
  }

  function Snapshot(list: seq<int>, start: nat): seq<int> {
    if start < |list| then Rotated(list, start) else list
  }

  /** Moving on to the next tracker of a walk. */
  function Onward(job: Job, rest: seq<int>): Pc {
    Walk(job, rest)
  }

  function SetPc(s: State, i: nat, pc: Pc): State
    requires i < |s.threads|
  {
    s.(threads := s.threads[i := pc])
  }

  function Destroy(s: State, c: nat): State {
    s.(destroyed := s.destroyed + [c])
  }

  /** Where the expiry scan of a tracker's ring stops. */
  function ExpiryCut(s: State, t: int, now: int): (k: nat)
    requires Typed(s) && 0 <= t < |s.rings|
    ensures k <= |s.rings[t]|
  {
    TailStart(ViewOf(s.rings[t], s.stamps), now - EXPIRE_TIME)
  }

  function Step(s: State, i: nat, ch: Choice): State
    requires Typed(s) && i < |s.threads|
  {
    var pc := s.threads[i];
    match pc
    case Idle =>
      var list := if ch.job == Revive then s.partition.inactive else s.partition.active;
      SetPc(s, i, if list == [] then Idle else Walk(ch.job, Snapshot(list, ch.start)))
    case Walk(job, rest) =>
      SetPc(s, i,
        if rest == [] then Idle
        else if job == Expire then Expiring(rest[0], rest[1..])
        else Popping(job, rest[0], rest[1..]))
    case Popping(job, t, rest) =>
      if s.rings[t] == [] then SetPc(s, i, Connecting(job, t, rest))
      else SetPc(s.(rings := s.rings[t := s.rings[t][1..]]), i, Using(job, t, rest, s.rings[t][0], false))
    case Connecting(job, t, rest) =>
      if ch.ok then
        SetPc(s.(home := s.home + [t], stamps := s.stamps + [0]), i, Using(job, t, rest, |s.home|, true))
      else SetPc(s, i, Deactivating(job, t, rest))
    case Using(job, t, rest, c, isNew) =>
      SetPc(s, i,
        if !ch.ok then Discarding(job, t, rest, c, isNew)
        else if job == Revive then Activating(job, t, rest, c)
        else Stamping(job, t, rest, c))
    case Discarding(job, t, rest, c, isNew) =>
      SetPc(Destroy(s, c), i, if job == Serve && !isNew then Popping(job, t, rest) else Onward(job, rest))
    case Activating(job, t, rest, c) =>
      SetPc(s.(partition := Activate(s.partition, t)), i, Stamping(job, t, rest, c))
    case Stamping(job, t, rest, c) =>
      assert Held(pc)[0] == c;
      var now := if ch.now > s.clock then ch.now else s.clock;
      SetPc(s.(stamps := s.stamps[c := now], clock := now), i, Pushing(job, t, rest, c))
    case Pushing(job, t, rest, c) =>
      SetPc(s.(rings := s.rings[t := [c] + s.rings[t]]), i, if job == Serve then Idle else Onward(job, rest))
    case Deactivating(job, t, rest) =>
      SetPc(s.(partition := Deactivate(s.partition, t)), i,
        if t in s.partition.active then Draining(job, t, rest) else Onward(job, rest))
    case Draining(job, t, rest) =>
      if s.rings[t] == [] then SetPc(s, i, Onward(job, rest))
      else SetPc(s.(rings := s.rings[t := s.rings[t][1..]]), i, DrainDestroying(job, t, rest, s.rings[t][0]))
    case DrainDestroying(job, t, rest, c) =>
      SetPc(Destroy(s, c), i, Draining(job, t, rest))
    case Expiring(t, rest) =>
      var k := ExpiryCut(s, t, ch.now);
      SetPc(s.(rings := s.rings[t := s.rings[t][..k]]), i, Freeing(t, rest, s.rings[t][k..]))
    case Freeing(t, rest, chain) =>
      if chain == [] then SetPc(s, i, Onward(Expire, rest))
      else SetPc(Destroy(s, chain[0]), i, Freeing(t, rest, chain[1..]))
  }

  // -------------------------------------------------------- multiset lemmas

  lemma Cancel(a: multiset<nat>, b: multiset<nat>, m: multiset<nat>)
    requires a + m == b + m
    ensures a == b
  {
    forall x: nat ensures a[x] == b[x] {
      assert (a + m)[x] == (b + m)[x];
    }
  }

  lemma SwapLast(a: multiset<nat>, b: multiset<nat>, c: multiset<nat>)
    ensures a + b + c == a + c + b
  {
  }

  /** Two exchanges with opposite effect leave the sum as it was. */
  lemma Exchange(r: multiset<nat>, r': multiset<nat>, h: multiset<nat>, h': multiset<nat>,
                 x: multiset<nat>, x': multiset<nat>, m: multiset<nat>, m': multiset<nat>)
    requires r' + x == r + x' && h' + m == h + m' && x' + m' == x + m
    ensures r' + h' == r + h
  {
    forall c: nat ensures (r' + h')[c] == (r + h)[c] {
      assert (r' + x)[c] == (r + x')[c];
      assert (h' + m)[c] == (h + m')[c];
      assert (x' + m')[c] == (x + m)[c];
    }
  }

  lemma {:induction false} BagUpdate(lists: seq<seq<nat>>, i: nat, x: seq<nat>)
    requires i < |lists|
    ensures Bag(lists[i := x]) + multiset(lists[i]) == Bag(lists) + multiset(x)
    decreases |lists|
  {
    var n := |lists| - 1;
    var after := lists[i := x];
    if i == n {
      assert after[..n] == lists[..n];
    } else {
      assert after[..n] == lists[..n][i := x] && after[n] == lists[n];
      BagUpdate(lists[..n], i, x);
      SwapLast(Bag(after[..n]), multiset(lists[i]), multiset(lists[n]));
      SwapLast(Bag(lists[..n]), multiset(x), multiset(lists[n]));
    }
  }

  lemma HandsUpdate(threads: seq<Pc>, i: nat, pc: Pc)
    requires i < |threads|
    ensures Bag(Hands(threads[i := pc])) + multiset(Held(threads[i])) == Bag(Hands(threads)) + multiset(Held(pc))
  {
    assert Hands(threads[i := pc]) == Hands(threads)[i := Held(pc)];
    BagUpdate(Hands(threads), i, Held(pc));
  }

  lemma {:induction false} UptoCounts(n: nat, c: nat)
    ensures Upto(n)[c] == if c < n then 1 else 0
  {
    if n > 0 {
      UptoCounts(n - 1, c);
    }
  }

  lemma {:induction false} BagHolds(lists: seq<seq<nat>>, i: nat, c: nat)
    requires i < |lists|
    ensures multiset(lists[i])[c] <= Bag(lists)[c]
    decreases |lists|
  {
    var n := |lists| - 1;
    if i < n {
      assert lists[..n][i] == lists[i];
      BagHolds(lists[..n], i, c);
    }
  }

  lemma HeadAndTail(s: seq<nat>)
    requires s != []
    ensures multiset(s) == multiset{s[0]} + multiset(s[1..])
  {
    assert s == [s[0]] + s[1..];
  }

  // ----------------------------------------------- the four kinds of move

  /** A step that only moves the thread on. */
  lemma MoveOn(s: State, s': State, i: nat)
    requires Conserved(s) && i < |s.threads| == |s'.threads| && s'.threads == s.threads[i := s'.threads[i]]
    requires s'.rings == s.rings && s'.destroyed == s.destroyed && |s'.home| == |s.home|
    requires Held(s'.threads[i]) == Held(s.threads[i])
    ensures Conserved(s')
  {
    HandsUpdate(s.threads, i, s'.threads[i]);
    Cancel(Bag(Hands(s'.threads)), Bag(Hands(s.threads)), multiset(Held(s.threads[i])));
  }

  /** Between a ring and a thread's hands. */
  lemma MoveRing(s: State, s': State, i: nat, t: nat)
    requires Conserved(s) && i < |s.threads| == |s'.threads| && s'.threads == s.threads[i := s'.threads[i]]
    requires t < |s.rings| == |s'.rings| && s'.rings == s.rings[t := s'.rings[t]]
    requires s'.destroyed == s.destroyed && |s'.home| == |s.home|
    requires multiset(s'.rings[t]) + multiset(Held(s'.threads[i]))
      == multiset(s.rings[t]) + multiset(Held(s.threads[i]))
    ensures Conserved(s')
  {
    HandsUpdate(s.threads, i, s'.threads[i]);
    BagUpdate(s.rings, t, s'.rings[t]);
    Exchange(Bag(s.rings), Bag(s'.rings), Bag(Hands(s.threads)), Bag(Hands(s'.threads)),
             multiset(s.rings[t]), multiset(s'.rings[t]), multiset(Held(s.threads[i])), multiset(Held(s'.threads[i])));
  }

  /** Out of a thread's hands for good. */
  lemma MoveDestroy(s: State, s': State, i: nat, c: nat)
    requires Conserved(s) && i < |s.threads| == |s'.threads| && s'.threads == s.threads[i := s'.threads[i]]
    requires s'.rings == s.rings && s'.destroyed == s.destroyed + [c] && |s'.home| == |s.home|
    requires multiset(Held(s.threads[i])) == multiset{c} + multiset(Held(s'.threads[i]))
    ensures Conserved(s')
  {
    HandsUpdate(s.threads, i, s'.threads[i]);
    var h, h' := Bag(Hands(s.threads)), Bag(Hands(s'.threads));
    var m: multiset<nat>, m': multiset<nat> := multiset(Held(s.threads[i])), multiset(Held(s'.threads[i]));
    forall x: nat ensures (h' + multiset{c})[x] == h[x] {
      assert (h' + m)[x] == (h + m')[x];
    }
    assert h' + multiset{c} == h;
  }

  /** A new connection, into a thread's empty hands. */
  lemma MoveCreate(s: State, s': State, i: nat)
    requires Conserved(s) && i < |s.threads| == |s'.threads| && s'.threads == s.threads[i := s'.threads[i]]
    requires s'.rings == s.rings && s'.destroyed == s.destroyed && |s'.home| == |s.home| + 1
    requires Held(s.threads[i]) == [] && Held(s'.threads[i]) == [|s.home|]
    ensures Conserved(s')
  {
    HandsUpdate(s.threads, i, s'.threads[i]);
    assert multiset(Held(s'.threads[i])) == multiset{|s.home|};
    assert Bag(Hands(s'.threads)) == Bag(Hands(s.threads)) + multiset{|s.home|};
  }

  predicate Pops(pc: Pc) {
    pc.Popping? || pc.Draining?
  }

  predicate Destroys(pc: Pc) {
    pc.Discarding? || pc.DrainDestroying?
  }

  /** Such a step moves no connection. */
  predicate Quiet(pc: Pc) {
    !Pops(pc) && !Destroys(pc) && !pc.Pushing? && !pc.Expiring? && !pc.Freeing? && !pc.Connecting?
  }

  lemma PopConserves(s: State, i: nat, ch: Choice)
    requires Typed(s) && Conserved(s) && i < |s.threads| && Pops(s.threads[i])
    ensures Conserved(Step(s, i, ch))
  {
    hide Conserved, ExpiryCut, IsPartition, RingsAtHome, Activate, Deactivate, Snapshot;
    var s', pc := Step(s, i, ch), s.threads[i];
    if s.rings[pc.t] == [] {
      MoveOn(s, s', i);
    } else {
      HeadAndTail(s.rings[pc.t]);
      MoveRing(s, s', i, pc.t);
    }
  }

  lemma PushConserves(s: State, i: nat, ch: Choice)
    requires Typed(s) && Conserved(s) && i < |s.threads| && s.threads[i].Pushing?
    ensures Conserved(Step(s, i, ch))
  {
    hide Conserved, ExpiryCut, IsPartition, RingsAtHome, Activate, Deactivate, Snapshot;
    var s', pc := Step(s, i, ch), s.threads[i];
    HeadAndTail(s'.rings[pc.t]);
    MoveRing(s, s', i, pc.t);
  }

  lemma ExpireConserves(s: State, i: nat, ch: Choice)
    requires Typed(s) && Conserved(s) && i < |s.threads| && s.threads[i].Expiring?
    ensures Conserved(Step(s, i, ch))
  {
    hide Conserved, ExpiryCut, IsPartition, RingsAtHome, Activate, Deactivate, Snapshot;
    var s', pc := Step(s, i, ch), s.threads[i];
    var ring, k := s.rings[pc.t], ExpiryCut(s, pc.t, ch.now);
    assert ring == ring[..k] + ring[k..];
    MoveRing(s, s', i, pc.t);
  }

  lemma DestroyConserves(s: State, i: nat, ch: Choice)
    requires Typed(s) && Conserved(s) && i < |s.threads| && Destroys(s.threads[i])
    ensures Conserved(Step(s, i, ch))
  {
    hide Conserved, ExpiryCut, IsPartition, RingsAtHome, Activate, Deactivate, Snapshot;
    var s', pc := Step(s, i, ch), s.threads[i];
    MoveDestroy(s, s', i, pc.c);
  }

  lemma FreeConserves(s: State, i: nat, ch: Choice)
    requires Typed(s) && Conserved(s) && i < |s.threads| && s.threads[i].Freeing?
    ensures Conserved(Step(s, i, ch))
  {
    hide Conserved, ExpiryCut, IsPartition, RingsAtHome, Activate, Deactivate, Snapshot;
    var s', pc := Step(s, i, ch), s.threads[i];
    if pc.chain == [] {
      MoveOn(s, s', i);
    } else {
      HeadAndTail(pc.chain);
      MoveDestroy(s, s', i, pc.chain[0]);
    }
  }

  lemma ConnectConserves(s: State, i: nat, ch: Choice)
    requires Typed(s) && Conserved(s) && i < |s.threads| && s.threads[i].Connecting?
    ensures Conserved(Step(s, i, ch))
  {
    hide Conserved, ExpiryCut, IsPartition, RingsAtHome, Activate, Deactivate, Snapshot;
    var s', pc := Step(s, i, ch), s.threads[i];
    if ch.ok {
      MoveCreate(s, s', i);
    } else {
      MoveOn(s, s', i);
    }
  }

  lemma QuietConserves(s: State, i: nat, ch: Choice)
    requires Typed(s) && Conserved(s) && i < |s.threads| && Quiet(s.threads[i])
    ensures Conserved(Step(s, i, ch))
  {
    hide Conserved, ExpiryCut, IsPartition, RingsAtHome, Activate, Deactivate, Snapshot;
    var s', pc := Step(s, i, ch), s.threads[i];
    assert Held(s'.threads[i]) == Held(pc);
    MoveOn(s, s', i);
  }

  /** Every step keeps the count: each connection made is in one place, once. */
  lemma StepConserves(s: State, i: nat, ch: Choice)
    requires Typed(s) && Conserved(s) && i < |s.threads|
    ensures Conserved(Step(s, i, ch))
  {
    hide Conserved, Step, Typed;
    var pc := s.threads[i];
    if Pops(pc) {
      PopConserves(s, i, ch);
    } else if Destroys(pc) {
      DestroyConserves(s, i, ch);
    } else if pc.Pushing? {
      PushConserves(s, i, ch);
    } else if pc.Expiring? {
      ExpireConserves(s, i, ch);
    } else if pc.Freeing? {
      FreeConserves(s, i, ch);
    } else if pc.Connecting? {
      ConnectConserves(s, i, ch);
    } else {
      QuietConserves(s, i, ch);
    }
  }

  // ---------------------------------------------------------- well-typedness

  lemma PcOkGrows(pc: Pc, home: seq<int>, home': seq<int>, n: nat)
    requires PcOk(pc, home, n) && home <= home'
    ensures PcOk(pc, home', n)
  {
    forall k | 0 <= k < |Held(pc)| ensures Held(pc)[k] < |home'| && home'[Held(pc)[k]] == pc.t {
      assert home'[..|home|] == home;
    }
  }

  lemma Retyped(s: State, s': State, i: nat)
    requires Typed(s) && i < |s.threads| == |s'.threads| && s'.threads == s.threads[i := s'.threads[i]]
    requires |s'.rings| == |s.rings| && s.home <= s'.home && |s'.stamps| == |s'.home|
    requires RingsAtHome(s'.rings, s'.home)
    requires PcOk(s'.threads[i], s'.home, |s.rings|)
    requires IsPartition(s'.partition, |s.rings|)
    ensures Typed(s')
  {
    hide PcOk, RingsAtHome, IsPartition;
    forall j | 0 <= j < |s'.threads| ensures PcOk(s'.threads[j], s'.home, |s'.rings|) {
      if j != i {
        PcOkGrows(s.threads[j], s.home, s'.home, |s.rings|);
      }
    }
  }

  /** Fewer of the same connections in one ring, or a longer record of connections. */
  lemma RingShrinks(rings: seq<seq<nat>>, t: nat, ring: seq<nat>, home: seq<int>, home': seq<int>)
    requires RingsAtHome(rings, home) && t < |rings| && home <= home'
    requires forall j :: 0 <= j < |ring| ==> ring[j] in rings[t]
    ensures RingsAtHome(rings[t := ring], home')
  {
    var after := rings[t := ring];
    forall u, j | 0 <= u < |rings| && 0 <= j < |after[u]|
      ensures after[u][j] < |home'| && home'[after[u][j]] == u
    {
      if u == t {
        var k :| 0 <= k < |rings[t]| && rings[t][k] == ring[j];
        assert home[rings[t][k]] == t;
      } else {
        assert home[rings[u][j]] == u;
      }
    }
  }

  lemma RingGrows(rings: seq<seq<nat>>, t: nat, c: nat, home: seq<int>)
    requires RingsAtHome(rings, home) && t < |rings| && c < |home| && home[c] == t
    ensures RingsAtHome(rings[t := [c] + rings[t]], home)
  {
  }

  lemma RecordGrows(rings: seq<seq<nat>>, home: seq<int>, t: int)
    requires RingsAtHome(rings, home)
    ensures RingsAtHome(rings, home + [t])
  {
  }

  lemma SnapshotIndexes(list: seq<int>, start: nat, n: nat)
    requires ValidIndexes(list, n)
    ensures ValidIndexes(Snapshot(list, start), n)
  {
  }

  lemma StepTyped(s: State, i: nat, ch: Choice)
    requires Typed(s) && i < |s.threads|
    ensures Typed(Step(s, i, ch)) && |Step(s, i, ch).threads| == |s.threads| && |Step(s, i, ch).rings| == |s.rings|
  {
    var s', pc, n := Step(s, i, ch), s.threads[i], |s.rings|;
    assert PcOk(pc, s.home, n);
    StepRings(s, i, ch);
    StepPc(s, i, ch);
    StepPartition(s, i, ch);
    hide PcOk, RingsAtHome, IsPartition, Activate, Deactivate, ExpiryCut;
    Retyped(s, s', i);
  }

  lemma StepPartition(s: State, i: nat, ch: Choice)
    requires Typed(s) && i < |s.threads|
    ensures IsPartition(Step(s, i, ch).partition, |s.rings|)
  {
    hide IsPartition, Activate, Deactivate, RingsAtHome, ExpiryCut;
    match s.threads[i] {
      case Activating(_, t, _, _) => ActivateKeepsPartition(s.partition, t, |s.rings|);
      case Deactivating(_, t, _) => DeactivateKeepsPartition(s.partition, t, |s.rings|);
      case _ =>
    }
  }

  lemma StepRings(s: State, i: nat, ch: Choice)
    requires Typed(s) && i < |s.threads|
    ensures RingsAtHome(Step(s, i, ch).rings, Step(s, i, ch).home)
    ensures |Step(s, i, ch).stamps| == |Step(s, i, ch).home| && s.home <= Step(s, i, ch).home
  {
    hide IsPartition, Activate, Deactivate, RingsAtHome, ExpiryCut;
    var pc := s.threads[i];
    match pc {
      case Popping(_, t, _) =>
        if s.rings[t] != [] {
          RingShrinks(s.rings, t, s.rings[t][1..], s.home, s.home);
        }
      case Draining(_, t, _) =>
        if s.rings[t] != [] {
          RingShrinks(s.rings, t, s.rings[t][1..], s.home, s.home);
        }
      case Connecting(_, t, _) =>
        RecordGrows(s.rings, s.home, t);
      case Pushing(_, t, _, c) =>
        assert Held(pc)[0] == c;
        RingGrows(s.rings, t, c, s.home);
      case Stamping(_, _, _, c) =>
        assert Held(pc)[0] == c;
      case Expiring(t, _) =>
        var k := ExpiryCut(s, t, ch.now);
        RingShrinks(s.rings, t, s.rings[t][..k], s.home, s.home);
      case _ =>
    }
  }

  /** A thread that takes a connection out of a ring, or a chain, holds connections of that ring's tracker. */
  lemma StepPcTaking(s: State, i: nat, ch: Choice)
    requires Typed(s) && i < |s.threads|
    requires var pc := s.threads[i]; pc.Popping? || pc.Draining? || pc.Expiring? || pc.Freeing?
    ensures PcOk(Step(s, i, ch).threads[i], Step(s, i, ch).home, |s.rings|)
  {
    hide Activate, Deactivate, ExpiryCut, Snapshot, IsPartition;
    var pc := s.threads[i];
    match pc {
      case Popping(_, t, _) =>
        assert s.rings[t] != [] ==> s.home[s.rings[t][0]] == t;
      case Draining(_, t, _) =>
        assert s.rings[t] != [] ==> s.home[s.rings[t][0]] == t;
      case Freeing(t, _, chain) =>
        assert forall k :: 1 <= k < |chain| ==> chain[k] == Held(pc)[k];
      case _ =>
    }
  }

  /** A thread that holds a connection, or is about to make one, goes on with one of the same tracker. */
  lemma StepPcHolding(s: State, i: nat, ch: Choice)
    requires Typed(s) && i < |s.threads|
    requires var pc := s.threads[i]; !pc.Idle? && !pc.Popping? && !pc.Draining? && !pc.Expiring? && !pc.Freeing?
    ensures PcOk(Step(s, i, ch).threads[i], Step(s, i, ch).home, |s.rings|)
  {
    hide Activate, Deactivate, IsPartition, RingsAtHome;
    var pc := s.threads[i];
    match pc {
      case Using(_, t, _, c, _) => assert Held(pc)[0] == c;
      case Activating(_, t, _, c) => assert Held(pc)[0] == c;
      case Stamping(_, t, _, c) => assert Held(pc)[0] == c;
      case _ =>
    }
  }

  lemma StepPc(s: State, i: nat, ch: Choice)
    requires Typed(s) && i < |s.threads|
    ensures PcOk(Step(s, i, ch).threads[i], Step(s, i, ch).home, |s.rings|)
  {
    var pc, n := s.threads[i], |s.rings|;
    if pc.Idle? {
      SnapshotIndexes(s.partition.active, ch.start, n);
      SnapshotIndexes(s.partition.inactive, ch.start, n);
    } else if pc.Popping? || pc.Draining? || pc.Expiring? || pc.Freeing? {
      hide PcOk, Step, Typed;
      StepPcTaking(s, i, ch);
    } else {
      hide PcOk, Step, Typed;
      StepPcHolding(s, i, ch);
    }
  }

  // ---------------------------------------------------------------- runs

  predicate OnBoard(schedule: seq<Turn>, n: nat) {
    forall k :: 0 <= k < |schedule| ==> schedule[k].thread < n
  }

  /** A schedule carried out, whatever threads it picks and whatever the world answers. */
  ghost function Run(s: State, schedule: seq<Turn>): (r: State)
    requires Typed(s) && OnBoard(schedule, |s.threads|)
    ensures Typed(r) && |r.threads| == |s.threads| && |r.rings| == |s.rings|
    decreases |schedule|
  {
    if schedule == [] then s
    else
      StepTyped(s, schedule[0].thread, schedule[0].choice);
      Run(Step(s, schedule[0].thread, schedule[0].choice), schedule[1..])
  }

  /** After registration: nobody working, nothing connected. */
  predicate Initial(s: State) {
    && s.home == [] && s.stamps == [] && s.destroyed == [] && s.clock == 0
    && (forall t :: 0 <= t < |s.rings| ==> s.rings[t] == [])
    && (forall i :: 0 <= i < |s.threads| ==> s.threads[i].Idle?)
    && IsPartition(s.partition, |s.rings|)
  }

  lemma {:induction false} BagOfEmpties(lists: seq<seq<nat>>)
    requires forall i :: 0 <= i < |lists| ==> lists[i] == []
    ensures Bag(lists) == multiset{}
  {
    if lists != [] {
      BagOfEmpties(lists[..|lists| - 1]);
    }
  }

  lemma InitialIsGood(s: State)
    requires Initial(s)
    ensures Typed(s) && Conserved(s)
  {
    BagOfEmpties(s.rings);
    BagOfEmpties(Hands(s.threads));
    hide Bag, Hands, IsPartition;
  }

  lemma {:induction false} RunConserves(s: State, schedule: seq<Turn>)
    requires Typed(s) && Conserved(s) && OnBoard(schedule, |s.threads|)
    ensures Conserved(Run(s, schedule))
    decreases |schedule|
  {
    hide Typed, Conserved, Step;
    if schedule != [] {
      var i, ch := schedule[0].thread, schedule[0].choice;
      StepTyped(s, i, ch);
      StepConserves(s, i, ch);
      RunConserves(Step(s, i, ch), schedule[1..]);
    }
  }

  // ------------------------------------------------- what ownership means

  predicate Apart(a: seq<nat>, b: seq<nat>) {
    forall i, j :: 0 <= i < |a| && 0 <= j < |b| ==> a[i] != b[j]
  }

  predicate SomewhereIn(lists: seq<seq<nat>>, c: nat) {
    exists i :: 0 <= i < |lists| && c in lists[i]
  }

  /**
   Each connection ever made is in exactly one place: its own tracker's ring, one
   thread's hands (a detached chain included), or the graveyard; and once there.
   */
  ghost predicate Exclusive(s: State) {
    var hands := Hands(s.threads);
    && Distinct(s.destroyed)
    && (forall t :: 0 <= t < |s.rings| ==> Distinct(s.rings[t]) && Apart(s.rings[t], s.destroyed))
    && (forall i :: 0 <= i < |hands| ==> Distinct(hands[i]) && Apart(hands[i], s.destroyed))
    && (forall t, i :: 0 <= t < |s.rings| && 0 <= i < |hands| ==> Apart(s.rings[t], hands[i]))
    && (forall t, u :: 0 <= t < u < |s.rings| ==> Apart(s.rings[t], s.rings[u]))
    && (forall i, j :: 0 <= i < j < |hands| ==> Apart(hands[i], hands[j]))
    && RingsAtHome(s.rings, s.home)
    && (forall c :: 0 <= c < |s.home| ==> SomewhereIn(s.rings, c) || SomewhereIn(hands, c) || c in s.destroyed)
  }

  lemma Twice(s: seq<nat>, i: nat, j: nat)
    requires i < j < |s| && s[i] == s[j]
    ensures multiset(s)[s[i]] >= 2
  {
    assert s == s[..j] + s[j..];
    assert s[i] in s[..j] && s[j] in s[j..];
  }

  lemma OnceMeansDistinct(s: seq<nat>)
    requires forall c: nat :: multiset(s)[c] <= 1
    ensures Distinct(s)
  {
    forall i, j | 0 <= i < j < |s| ensures s[i] != s[j] {
      if s[i] == s[j] {
        Twice(s, i, j);
      }
    }
  }

  lemma OnceMeansApart(a: seq<nat>, b: seq<nat>)
    requires forall c: nat :: multiset(a)[c] + multiset(b)[c] <= 1
    ensures Apart(a, b)
  {
    forall i, j | 0 <= i < |a| && 0 <= j < |b| ensures a[i] != b[j] {
      assert a[i] in multiset(a) && b[j] in multiset(b);
    }
  }

  lemma {:induction false} BagHoldsTwo(lists: seq<seq<nat>>, i: nat, j: nat, c: nat)
    requires i < j < |lists|
    ensures multiset(lists[i])[c] + multiset(lists[j])[c] <= Bag(lists)[c]
    decreases |lists|
  {
    var n := |lists| - 1;
    var front := lists[..n];
    if j < n {
      assert front[i] == lists[i] && front[j] == lists[j];
      BagHoldsTwo(front, i, j, c);
    } else {
      assert front[i] == lists[i];
      BagHolds(front, i, c);
    }
  }

  lemma {:induction false} BagFinds(lists: seq<seq<nat>>, c: nat)
    requires Bag(lists)[c] > 0
    ensures SomewhereIn(lists, c)
    decreases |lists|
  {
    if lists != [] {
      var n := |lists| - 1;
      if c in lists[n] {
      } else {
        assert c !in multiset(lists[n]);
        BagFinds(lists[..n], c);
        var i :| 0 <= i < n && c in lists[..n][i];
        assert c in lists[i];
      }
    }
  }

  lemma PlacesOf(s: State, c: nat)
    requires Conserved(s)
    ensures Bag(s.rings)[c] + Bag(Hands(s.threads))[c] + multiset(s.destroyed)[c] == if c < |s.home| then 1 else 0
  {
    UptoCounts(|s.home|, c);
    var all := Bag(s.rings) + Bag(Hands(s.threads)) + multiset(s.destroyed);
    assert all[c] == Upto(|s.home|)[c];
  }

  lemma FamilyOnce(lists: seq<seq<nat>>, others: seq<nat>)
    requires forall c: nat :: Bag(lists)[c] + multiset(others)[c] <= 1
    ensures forall i :: 0 <= i < |lists| ==> Distinct(lists[i]) && Apart(lists[i], others)
    ensures forall i, j :: 0 <= i < j < |lists| ==> Apart(lists[i], lists[j])
  {
    hide Distinct, Apart;
    forall i | 0 <= i < |lists| ensures Distinct(lists[i]) && Apart(lists[i], others) {
      forall c: nat ensures multiset(lists[i])[c] + multiset(others)[c] <= 1 {
        BagHolds(lists, i, c);
      }
      OnceMeansDistinct(lists[i]);
      OnceMeansApart(lists[i], others);
    }
    forall i, j | 0 <= i < j < |lists| ensures Apart(lists[i], lists[j]) {
      forall c: nat ensures multiset(lists[i])[c] + multiset(lists[j])[c] <= 1 {
        BagHoldsTwo(lists, i, j, c);
      }
      OnceMeansApart(lists[i], lists[j]);
    }
  }

  lemma FamiliesApart(a: seq<seq<nat>>, b: seq<seq<nat>>)
    requires forall c: nat :: Bag(a)[c] + Bag(b)[c] <= 1
    ensures forall i, j :: 0 <= i < |a| && 0 <= j < |b| ==> Apart(a[i], b[j])
  {
    hide Apart;
    forall i, j | 0 <= i < |a| && 0 <= j < |b| ensures Apart(a[i], b[j]) {
      forall c: nat ensures multiset(a[i])[c] + multiset(b[j])[c] <= 1 {
        BagHolds(a, i, c);
        BagHolds(b, j, c);
      }
      OnceMeansApart(a[i], b[j]);
    }
  }

  lemma AtMostOnce(s: State)
    requires Conserved(s)
    ensures forall c: nat :: Bag(s.rings)[c] + multiset(s.destroyed)[c] <= 1
    ensures forall c: nat :: Bag(Hands(s.threads))[c] + multiset(s.destroyed)[c] <= 1
    ensures forall c: nat :: Bag(s.rings)[c] + Bag(Hands(s.threads))[c] <= 1
    ensures forall c: nat :: multiset(s.destroyed)[c] <= 1
  {
    hide Conserved, Hands, Bag;
    forall c: nat
      ensures Bag(s.rings)[c] + Bag(Hands(s.threads))[c] + multiset(s.destroyed)[c] <= 1
    {
      PlacesOf(s, c);
    }
  }

  lemma ConservedMeansExclusive(s: State)
    requires Typed(s) && Conserved(s)
    ensures Exclusive(s)
  {
    hide Conserved, Typed, Hands, RingsAtHome, Distinct, Apart, SomewhereIn, Bag;
    var hands := Hands(s.threads);
    AtMostOnce(s);
    FamilyOnce(s.rings, s.destroyed);
    FamilyOnce(hands, s.destroyed);
    FamiliesApart(s.rings, hands);
    OnceMeansDistinct(s.destroyed);
    TypedRings(s);
    forall c | 0 <= c < |s.home| ensures SomewhereIn(s.rings, c) || SomewhereIn(hands, c) || c in s.destroyed {
      EachIsSomewhere(s, c);
    }
  }

  lemma TypedRings(s: State)
    requires Typed(s)
    ensures RingsAtHome(s.rings, s.home)
  {
  }

  lemma EachIsSomewhere(s: State, c: nat)
    requires Conserved(s) && c < |s.home|
    ensures SomewhereIn(s.rings, c) || SomewhereIn(Hands(s.threads), c) || c in s.destroyed
  {
    PlacesOf(s, c);
    if Bag(s.rings)[c] > 0 {
      BagFinds(s.rings, c);
    } else if Bag(Hands(s.threads))[c] > 0 {
      BagFinds(Hands(s.threads), c);
    } else {
      assert c in multiset(s.destroyed);
    }
  }

  /**
   Main result: over every interleaving of any number of threads, every
   connection is in exactly one place, is destroyed at most once, is never pooled
   under another tracker, and the two tracker lists stay a partition.
   */
  lemma OwnershipThroughout(s: State, schedule: seq<Turn>)
    requires Initial(s) && OnBoard(schedule, |s.threads|)
    ensures Typed(s) && Exclusive(Run(s, schedule))
    ensures IsPartition(Run(s, schedule).partition, |s.rings|)
  {
    InitialIsGood(s);
    RunConserves(s, schedule);
    ConservedMeansExclusive(Run(s, schedule));
  }

  /** No leak: when every thread is idle, each connection made is pooled with its own tracker or destroyed. */
  lemma NothingLeaks(s: State, schedule: seq<Turn>, c: nat)
    requires Initial(s) && OnBoard(schedule, |s.threads|)
    ensures Typed(s)
    ensures var r := Run(s, schedule);
      (forall i :: 0 <= i < |r.threads| ==> r.threads[i].Idle?) && c < |r.home| ==>
        c in r.destroyed || (0 <= r.home[c] < |r.rings| && c in r.rings[r.home[c]])
  {
    OwnershipThroughout(s, schedule);
    var r := Run(s, schedule);
    if (forall i :: 0 <= i < |r.threads| ==> r.threads[i].Idle?) && c < |r.home| && c !in r.destroyed {
      assert !SomewhereIn(Hands(r.threads), c);
      var t :| 0 <= t < |r.rings| && c in r.rings[t];
      var k :| 0 <= k < |r.rings[t]| && r.rings[t][k] == c;
      assert r.home[r.rings[t][k]] == t;
    }
  }
}
