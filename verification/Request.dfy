/**
 Getting connections from a tracker pool (src/pool.c) and the failover loop of
 mfs_request_do (src/request.c), for one caller at a time.  What the network
 answers is arbitrary: the k-th connect and the k-th request have the outcome
 that functions of k give.
 */
module Request {
  import opened Common
  import opened StackSpec
  import opened TrackerTable

  const APR_SUCCESS := 0
  const APR_ECONNREFUSED := 111

  datatype Network = Network(connects: nat -> bool, status: nat -> int, clock: nat -> int)

  /** One turn of the inner loop: the connect failed, or a request was made on a connection. */
  datatype Attempt = ConnectFailed(tracker: int) | Tried(tracker: int, id: nat, isNew: bool, status: int)

  predicate Succeeded(a: Attempt) {
    a.Tried? && a.status == APR_SUCCESS
  }

  /** The attempt after which the loop gives a tracker up. */
  predicate Concludes(a: Attempt) {
    a.ConnectFailed? || a.isNew
  }

  /** The status of the last request made, if any was. */
  function LastStatus(attempts: seq<Attempt>, initial: int): int {
    if attempts == [] then initial
    else
      var last := attempts[|attempts| - 1];
      if last.Tried? then last.status else LastStatus(attempts[..|attempts| - 1], initial)
  }

  /** Only the last attempt may have succeeded. */
  predicate OnlyLastSucceeds(attempts: seq<Attempt>) {
    forall i :: 0 <= i < |attempts| - 1 ==> !Succeeded(attempts[i])
  }

  predicate AnySuccess(attempts: seq<Attempt>) {
    exists i :: 0 <= i < |attempts| && Succeeded(attempts[i])
  }

  predicate AllConnectsFailed(attempts: seq<Attempt>) {
    forall i :: 0 <= i < |attempts| ==> attempts[i].ConnectFailed?
  }

  /** Idle connections plus one fresh connect for every tracker of the walk. */
  function Budget(order: seq<int>, stacks: seq<Stack>): nat
    requires forall i :: 0 <= i < |order| ==> 0 <= order[i] < |stacks|
  {
    if order == [] then 0
    else Budget(order[..|order| - 1], stacks) + |stacks[order[|order| - 1]]| + 1
  }

  lemma {:induction false} LastStatusOfFailures(attempts: seq<Attempt>, initial: int)
    requires !AnySuccess(attempts)
    ensures LastStatus(attempts, initial) == APR_SUCCESS <==> initial == APR_SUCCESS && AllConnectsFailed(attempts)
  {
    if attempts != [] {
      var front, last := attempts[..|attempts| - 1], attempts[|attempts| - 1];
      if last.Tried? {
        assert !Succeeded(last);
      } else {
        assert forall i :: 0 <= i < |front| ==> front[i] == attempts[i];
        LastStatusOfFailures(front, initial);
        assert AllConnectsFailed(attempts) <==> AllConnectsFailed(front);
      }
    }
  }

  /** The value mfs_request_do returns says success exactly when an attempt succeeded, unless it started as success. */
  lemma LastStatusIff(attempts: seq<Attempt>, initial: int)
    requires OnlyLastSucceeds(attempts)
    ensures LastStatus(attempts, initial) == APR_SUCCESS <==>
      AnySuccess(attempts) || (initial == APR_SUCCESS && AllConnectsFailed(attempts))
  {
    if !AnySuccess(attempts) {
      LastStatusOfFailures(attempts, initial);
    } else {
      var i :| 0 <= i < |attempts| && Succeeded(attempts[i]);
      assert i == |attempts| - 1;
    }
  }

  /** The status is that of the last request made, or the initial one when no connection could be made. */
  predicate StatusOf(a: seq<Attempt>, initial: int, rv: int) {
    if AllConnectsFailed(a) then rv == initial
    else
      exists k :: 0 <= k < |a| && a[k].Tried? && rv == a[k].status && forall m :: k < m < |a| ==> a[m].ConnectFailed?
  }

  lemma {:induction false} LastStatusIs(a: seq<Attempt>, initial: int)
    ensures StatusOf(a, initial, LastStatus(a, initial))
  {
    if a != [] {
      var front, last := a[..|a| - 1], a[|a| - 1];
      assert a == front + [last];
      LastStatusIs(front, initial);
      hide AnySuccess;
      StatusOneMore(front, last, initial, LastStatus(front, initial));
    }
  }

  lemma StatusOneMore(front: seq<Attempt>, last: Attempt, initial: int, rv: int)
    requires StatusOf(front, initial, rv)
    ensures StatusOf(front + [last], initial, if last.Tried? then last.status else rv)
  {
    var a := front + [last];
    assert a[|front|] == last;
    if last.ConnectFailed? {
      if AllConnectsFailed(front) {
        assert AllConnectsFailed(a);
      } else {
        var k :| 0 <= k < |front| && front[k].Tried? && rv == front[k].status
          && forall m :: k < m < |front| ==> front[m].ConnectFailed?;
        assert a[k] == front[k] && forall m :: k < m < |a| ==> a[m].ConnectFailed?;
      }
    }
  }

  /** The ids of the connections whose request failed, in order. */
  function FailedIds(attempts: seq<Attempt>): seq<nat> {
    if attempts == [] then []
    else
      var last := attempts[|attempts| - 1];
      FailedIds(attempts[..|attempts| - 1]) + if last.Tried? && last.status != APR_SUCCESS then [last.id] else []
  }

  /** Exactly those, the winner not among them. */
  lemma {:induction false} FailedIdsAre(a: seq<Attempt>, id: nat)
    ensures id in FailedIds(a) <==> exists k :: 0 <= k < |a| && a[k].Tried? && a[k].status != 0 && a[k].id == id
  {
    if a != [] {
      var n := |a| - 1;
      FailedIdsAre(a[..n], id);
      assert a[n].Tried? && a[n].status != 0 && a[n].id == id ==> id in FailedIds(a);
      if k :| 0 <= k < n && a[k].Tried? && a[k].status != 0 && a[k].id == id {
        assert a[..n][k] == a[k];
      }
    }
  }

  /**
   How one tracker with idle stack `s` is used: its idle connections head first,
   then one fresh connect, stopping at a success.
   */
  predicate Walked(a: seq<Attempt>, tracker: int, s: Stack, finished: bool) {
    && |a| <= |s| + 1
    && (forall k :: 0 <= k < |a| ==> a[k].tracker == tracker)
    && (forall k :: 0 <= k < |a| && k < |s| ==> a[k].Tried? && a[k].id == s[k].id && !a[k].isNew)
    && (|a| == |s| + 1 ==> Concludes(a[|s|]))
    && OnlyLastSucceeds(a)
    && (if finished then a != [] && Succeeded(a[|a| - 1]) else |a| == |s| + 1 && !Succeeded(a[|s|]))
  }

  function Requests(a: seq<Attempt>): nat {
    if a == [] then 0 else Requests(a[..|a| - 1]) + if a[|a| - 1].Tried? then 1 else 0
  }

  function Connects(a: seq<Attempt>): nat {
    if a == [] then 0 else Connects(a[..|a| - 1]) + if Concludes(a[|a| - 1]) then 1 else 0
  }

  /** The attempt is what the network said at connect number `c` and request number `r`. */
  predicate AttemptTrue(one: Attempt, net: Network, c: nat, r: nat) {
    match one
    case ConnectFailed(_) => !net.connects(c)
    case Tried(_, _, isNew, status) => status == net.status(r) && (isNew ==> net.connects(c))
  }

  /** Every attempt is what the network said, counting connects from `c` and requests from `r`. */
  predicate Truthful(a: seq<Attempt>, net: Network, c: nat, r: nat) {
    a == [] ||
    (var front := a[..|a| - 1];
     Truthful(front, net, c, r) && AttemptTrue(a[|a| - 1], net, c + Connects(front), r + Requests(front)))
  }

  lemma TruthfulAppend(a: seq<Attempt>, one: Attempt, net: Network, c: nat, r: nat)
    requires Truthful(a, net, c, r) && AttemptTrue(one, net, c + Connects(a), r + Requests(a))
    ensures Truthful(a + [one], net, c, r)
    ensures Connects(a + [one]) == Connects(a) + (if Concludes(one) then 1 else 0)
    ensures Requests(a + [one]) == Requests(a) + if one.Tried? then 1 else 0
  {
    assert (a + [one])[..|a|] == a;
  }

  lemma {:induction false} TruthfulConcat(a: seq<Attempt>, b: seq<Attempt>, net: Network, c: nat, r: nat)
    requires Truthful(a, net, c, r) && Truthful(b, net, c + Connects(a), r + Requests(a))
    ensures Truthful(a + b, net, c, r)
    ensures Connects(a + b) == Connects(a) + Connects(b) && Requests(a + b) == Requests(a) + Requests(b)
    decreases |b|
  {
    if b == [] {
      assert a + b == a;
    } else {
      hide AttemptTrue, Concludes, LastStatus, FailedIds;
      var front, last := b[..|b| - 1], b[|b| - 1];
      TruthfulConcat(a, front, net, c, r);
      TruthfulAppend(a + front, last, net, c, r);
      assert a + b == (a + front) + [last];
    }
  }

  /** Idle connections used up so far, all in vain. */
  predicate Pending(a: seq<Attempt>, tracker: int, s: Stack) {
    && |a| <= |s|
    && forall k :: 0 <= k < |a| ==>
         a[k].Tried? && a[k].id == s[k].id && !a[k].isNew && a[k].tracker == tracker && !Succeeded(a[k])
  }

  lemma AppendAttempt(a: seq<Attempt>, one: Attempt, initial: int)
    ensures LastStatus(a + [one], initial) == if one.Tried? then one.status else LastStatus(a, initial)
    ensures FailedIds(a + [one]) == FailedIds(a) + if one.Tried? && one.status != APR_SUCCESS then [one.id] else []
  {
    assert (a + [one])[..|a|] == a;
  }

  lemma WalkStep(a: seq<Attempt>, one: Attempt, tracker: int, s: Stack)
    requires Pending(a, tracker, s) && one.tracker == tracker
    requires if |a| < |s| then one.Tried? && one.id == s[|a|].id && !one.isNew else Concludes(one)
    ensures Succeeded(one) ==> Walked(a + [one], tracker, s, true)
    ensures !Succeeded(one) && Concludes(one) ==> Walked(a + [one], tracker, s, false)
    ensures !Succeeded(one) && !Concludes(one) ==> Pending(a + [one], tracker, s)
    ensures (a + [one])[|a + [one]| - 1] == one
    ensures if |a| < |s| then Pop(s[|a|..]) == Rest(s, |a| + 1) else Pop(s[|a|..]) == [] == Rest(s, |a| + 1)
  {
  }

  /** What is left of the stack after `n` attempts. */
  function Rest(s: Stack, n: nat): Stack {
    if n <= |s| then s[n..] else []
  }

  class TrackerPool {
    const net: Network
    const table: Table
    /** The idle stack of each tracker; ConnectionRing.Ring carries these operations out on pointers. */
    var stacks: seq<Stack>
    var connectCalls: nat
    var requestCalls: nat
    var nextId: nat
    ghost var log: seq<Attempt>
    ghost var destroyed: seq<nat>

    ghost predicate Valid()
      reads this, table, table.active, table.inactive
    {
      table.Valid() && |stacks| == table.maxTrackerCount
    }

    constructor (net: Network, table: Table)
      requires table.Valid()
      ensures Valid() && this.net == net && this.table == table
      ensures connectCalls == 0 && requestCalls == 0 && log == [] && destroyed == []
      ensures forall i :: 0 <= i < |stacks| ==> stacks[i] == []
    {
      this.net, this.table := net, table;
      stacks := seq(table.maxTrackerCount, _ => []);
      connectCalls, requestCalls, nextId, log, destroyed := 0, 0, 0, [], [];
    }

    /** The locked pop of mfs_pool_get_connection_ex. */
    method PopConnection(i: int) returns (entry: Option<Entry>)
      requires 0 <= i < |stacks|
      modifies this`stacks
      ensures stacks == old(stacks)[i := Pop(old(stacks)[i])]
      ensures entry == if old(stacks)[i] == [] then None else Some(old(stacks)[i][0])
    {
      if stacks[i] == [] {
        return None;
      }
      entry := Some(stacks[i][0]);
      stacks := stacks[i := stacks[i][1..]];
    }

    method DestroyConnection(entry: Entry)
      modifies this`destroyed
      ensures destroyed == old(destroyed) + [entry.id]
    {
      destroyed := destroyed + [entry.id];
    }

    /** The drain loop of mfs_pool_deactivate: every idle connection is destroyed, head first. */
    method Drain(i: int)
      requires 0 <= i < |stacks|
      modifies this`stacks, this`destroyed
      ensures stacks == old(stacks)[i := []]
      ensures destroyed == old(destroyed) + Ids(old(stacks)[i])
    {
      ghost var s := stacks[i];
      ghost var k := 0;
      var entry := PopConnection(i);
      while entry.Some?
        invariant 0 <= k <= |s|
        invariant entry == if k < |s| then Some(s[k]) else None
        invariant stacks == old(stacks)[i := if k < |s| then s[k + 1..] else []]
        invariant destroyed == old(destroyed) + Ids(s)[..k]
        decreases |s| - k
      {
        DestroyConnection(entry.value);
        assert Ids(s)[..k + 1] == Ids(s)[..k] + [entry.value.id];
        entry := PopConnection(i);
        k := k + 1;
      }
      assert Ids(s)[..k] == Ids(s);
    }

    /** mfs_pool_deactivate: out of the active list, and its idle connections are drained. */
    method DeactivateTracker(i: int)
      requires Valid() && 0 <= i < |stacks|
      modifies this`stacks, this`destroyed, table, table.active, table.inactive
      ensures Valid() && table.trackerCount == old(table.trackerCount)
      ensures table.Value() == Deactivate(old(table.Value()), i)
      ensures i in old(table.Value()).active ==>
        && stacks == old(stacks)[i := []]
        && destroyed == old(destroyed) + Ids(old(stacks)[i])
      ensures i !in old(table.Value()).active ==> stacks == old(stacks) && destroyed == old(destroyed)
    {
      var removed := table.DeactivateTracker(i);
      if removed {
        Drain(i);
      }
    }

    /** mfs_pool_get_connection_ex with *create_new true on entry; `isNew` is its value on return. */
    method GetConnection(i: int) returns (entry: Option<Entry>, isNew: bool)
      requires Valid() && 0 <= i < |stacks|
      modifies this`stacks, this`destroyed, this`connectCalls, this`nextId, table, table.active, table.inactive
      ensures Valid() && table.trackerCount == old(table.trackerCount)
      ensures destroyed == old(destroyed)
      ensures stacks == old(stacks)[i := Pop(old(stacks)[i])]
      ensures connectCalls == old(connectCalls) + (if isNew then 1 else 0)
      ensures old(stacks)[i] != [] ==>
        entry == Some(old(stacks)[i][0]) && !isNew && table.Value() == old(table.Value())
      ensures old(stacks)[i] == [] ==>
        && isNew
        && (if old(net.connects(connectCalls)) then
              entry == Some(Entry(old(nextId), 0)) && table.Value() == old(table.Value())
            else entry == None && table.Value() == Deactivate(old(table.Value()), i))
    {
      entry := PopConnection(i);
      if entry.Some? {
        return entry, false;
      }
      isNew := true;
      var connected := net.connects(connectCalls);
      connectCalls := connectCalls + 1;
      if !connected {
        DeactivateTracker(i);
        assert Ids([]) == [];
        return None, true;
      }
      entry := Some(Entry(nextId, 0));
      nextId := nextId + 1;
    }

    /** The attempts `a` are what the network answered since the counters were at `c` and `r`. */
    ghost predicate AccountedFor(c: nat, r: nat, a: seq<Attempt>)
      reads this`connectCalls, this`requestCalls
    {
      Truthful(a, net, c, r) && connectCalls == c + Connects(a) && requestCalls == r + Requests(a)
    }

    /** One turn of the inner loop of mfs_request_do. */
    method AttemptOnce(i: int, rv0: int) returns (rv: int, keepTrying: bool, finished: bool, ghost a: Attempt)
      requires Valid() && 0 <= i < |stacks|
      modifies this, table, table.active, table.inactive
      ensures Valid() && table.trackerCount == old(table.trackerCount)
      ensures log == old(log) + [a] && a.tracker == i && finished == Succeeded(a) && keepTrying == !Concludes(a)
      ensures rv == if a.Tried? then a.status else rv0
      ensures AttemptTrue(a, net, old(connectCalls), old(requestCalls))
      ensures connectCalls == old(connectCalls) + (if Concludes(a) then 1 else 0)
      ensures requestCalls == old(requestCalls) + if a.Tried? then 1 else 0
      ensures destroyed == old(destroyed) + if a.Tried? && !finished then [a.id] else []
      ensures if old(stacks)[i] != [] then a.Tried? && a.id == old(stacks)[i][0].id && !a.isNew else Concludes(a)
      ensures !finished ==> stacks == old(stacks)[i := Pop(old(stacks)[i])]
      ensures finished ==>
        stacks == old(stacks)[i := Push(Pop(old(stacks)[i]), Entry(a.id, old(net.clock(requestCalls))))]
      ensures table.Value() == if a.ConnectFailed? then Deactivate(old(table.Value()), i) else old(table.Value())
    {
      var entry, isNew := GetConnection(i);
      keepTrying, finished, rv := !isNew, false, rv0;
      if entry.Some? {
        rv := net.status(requestCalls);
        var now := net.clock(requestCalls);
        requestCalls := requestCalls + 1;
        a := Tried(i, entry.value.id, isNew, rv);
        if rv != APR_SUCCESS {
          DestroyConnection(entry.value);
        } else {
          stacks := stacks[i := Push(stacks[i], Entry(entry.value.id, now))];
          finished := true;
        }
      } else {
        keepTrying := false;
        a := ConnectFailed(i);
      }
      log := log + [a];
    }

    /** The inner loop of mfs_request_do: one tracker until success or a concluding attempt. */
    method TryTracker(i: int, rv0: int) returns (rv: int, finished: bool, ghost a: seq<Attempt>)
      requires Valid() && 0 <= i < |stacks|
      modifies this, table, table.active, table.inactive
      ensures Valid() && table.trackerCount == old(table.trackerCount)
      ensures log == old(log) + a && Walked(a, i, old(stacks)[i], finished)
      ensures AccountedFor(old(connectCalls), old(requestCalls), a)
      ensures rv == LastStatus(a, rv0) && destroyed == old(destroyed) + FailedIds(a)
      ensures |stacks| == |old(stacks)| && forall t :: 0 <= t < |stacks| && t != i ==> stacks[t] == old(stacks)[t]
      ensures if finished then
          |stacks[i]| > 0 && stacks[i][0].id == a[|a| - 1].id && stacks[i][1..] == Rest(old(stacks)[i], |a|)
        else stacks[i] == []
      ensures table.Value() ==
        if !finished && a[|a| - 1].ConnectFailed? then Deactivate(old(table.Value()), i) else old(table.Value())
    {
      hide Walked, Pending, LastStatus, FailedIds, Deactivate, Truthful, Connects, Requests, AttemptTrue,
           Rest, IsPartition;
      ghost var s := stacks[i];
      var keepTrying := true;
      rv, finished, a := rv0, false, [];
      NothingYet(i, s, rv0);
      while keepTrying && !finished
        invariant Valid() && table.trackerCount == old(table.trackerCount)
        invariant log == old(log) + a && rv == LastStatus(a, rv0) && destroyed == old(destroyed) + FailedIds(a)
        invariant AccountedFor(old(connectCalls), old(requestCalls), a)
        invariant |stacks| == |old(stacks)| && forall t :: 0 <= t < |stacks| && t != i ==> stacks[t] == old(stacks)[t]
        invariant keepTrying && !finished ==>
          && Pending(a, i, s) && |a| <= |s| && stacks[i] == s[|a|..] && table.Value() == old(table.Value())
        invariant finished ==>
          && Walked(a, i, s, true) && a != [] && table.Value() == old(table.Value())
          && a[|a| - 1].Tried? && |stacks[i]| > 0 && stacks[i][0].id == a[|a| - 1].id && stacks[i][1..] == Rest(s, |a|)
        invariant !keepTrying && !finished ==>
          && Walked(a, i, s, false) && a != [] && stacks[i] == []
          && table.Value() ==
             if a[|a| - 1].ConnectFailed? then Deactivate(old(table.Value()), i) else old(table.Value())
        decreases keepTrying, |s| - |a|, !finished
      {
        ghost var one;
        rv, keepTrying, finished, one := AttemptOnce(i, rv);
        WalkStep(a, one, i, s);
        AppendAttempt(a, one, rv0);
        TruthfulAppend(a, one, net, old(connectCalls), old(requestCalls));
        a := a + [one];
        PendingBound(a, i, s);
      }
      WalkedIsLong(a, i, s, finished);
    }

    /** TryTracker seen from the walk: `a` holds the attempts so far, `b` those on this tracker. */
    method WalkOne(i: int, rv0: int, ghost order: seq<int>, ghost v: nat, ghost s0: seq<Stack>, ghost p0: Partition,
                   ghost a: seq<Attempt>, ghost initial: int)
      returns (rv: int, finished: bool, ghost b: seq<Attempt>)
      requires Valid() && v < |order| && i == order[v] && rv0 == LastStatus(a, initial)
      requires WalkedSoFar(order, v, s0, p0, a, stacks, table.Value())
      requires (forall j :: 0 <= j < |order| ==> 0 <= order[j] < |s0|) && |a| <= Budget(order[..v], s0)
      modifies this, table, table.active, table.inactive
      ensures Valid() && table.trackerCount == old(table.trackerCount)
      ensures log == old(log) + b && FailedIds(a + b) == FailedIds(a) + FailedIds(b)
      ensures destroyed == old(destroyed) + FailedIds(b) && AccountedFor(old(connectCalls), old(requestCalls), b)
      ensures rv == LastStatus(a + b, initial) && |a + b| <= Budget(order[..v + 1], s0)
      ensures finished ==> Ended(order, v + 1, s0, p0, a + b, stacks, table.Value())
      ensures !finished ==> WalkedSoFar(order, v + 1, s0, p0, a + b, stacks, table.Value())
    {
      hide WalkedSoFar, Ended, Rest, Walked, Budget, LastStatus, FailedIds, Deactivate, OnlyLastSucceeds, AnySuccess,
           IsPartition, Truthful, Connects, Requests;
      ghost var p, s1 := table.Value(), stacks;
      NextIsUntouched(order, v, s0, p0, a, s1, p);
      rv, finished, b := TryTracker(i, rv0);
      WalkOn(order, v, s0, p0, a, s1, p, b, stacks, table.Value(), finished, initial);
    }

    /** The outer loop of mfs_request_do over a fresh snapshot. */
    method Walk(list: TrackerList, initial: int, ghost order: seq<int>, ghost s0: seq<Stack>, ghost p0: Partition)
      returns (rv: int, finished: bool, ghost a: seq<Attempt>, ghost v: nat)
      requires Valid() && list.Valid() && list.visited == 0 && order == Rotated(list.indexes, list.startPosition)
      requires WalkedSoFar(order, 0, s0, p0, [], stacks, table.Value())
      requires forall j :: 0 <= j < |order| ==> 0 <= order[j] < |s0|
      modifies this, table, table.active, table.inactive, list
      ensures Valid() && log == old(log) + a && destroyed == old(destroyed) + FailedIds(a)
      ensures AccountedFor(old(connectCalls), old(requestCalls), a)
      ensures v <= |order| && rv == LastStatus(a, initial) && |a| <= Budget(order[..v], s0)
      ensures if finished then Ended(order, v, s0, p0, a, stacks, table.Value())
        else v == |order| && WalkedSoFar(order, v, s0, p0, a, stacks, table.Value())
    {
      NoAttempts(initial);
      hide WalkedSoFar, Ended, Budget, LastStatus, FailedIds, OnlyLastSucceeds, AnySuccess, IsPartition, Rotated,
           Truthful, Connects, Requests;
      rv, finished, a, v := initial, false, [], 0;
      var more := list.Next();
      while !finished && more
        invariant list.Valid() && Valid()
        invariant v <= |order|
        invariant !finished && more ==> v < |order| && list.visited == v + 1 && list.Current() == order[v]
        invariant !finished && !more ==> v == |order|
        invariant log == old(log) + a && destroyed == old(destroyed) + FailedIds(a)
        invariant AccountedFor(old(connectCalls), old(requestCalls), a)
        invariant rv == LastStatus(a, initial) && |a| <= Budget(order[..v], s0)
        invariant finished ==> Ended(order, v, s0, p0, a, stacks, table.Value())
        invariant !finished ==> WalkedSoFar(order, v, s0, p0, a, stacks, table.Value())
        decreases |order| - v, !finished
      {
        ghost var b;
        rv, finished, b := WalkOne(list.Current(), rv, order, v, s0, p0, a, initial);
        TruthfulConcat(a, b, net, old(connectCalls), old(requestCalls));
        a, v := a + b, v + 1;
        if !finished {
          more := list.Next();
        }
      }
    }

    /**
     mfs_request_do.  `start` is the random start of the walk; `poolGiven` is
     false when the caller passes no memory pool, and then the status starts out
     as success.
     */
    method RequestDo(start: nat, poolGiven: bool) returns (rv: int, ghost a: seq<Attempt>)
      requires Valid() && (table.activeCount > 0 ==> start < table.activeCount)
      modifies this, table, table.active, table.inactive
      ensures Valid() && log == old(log) + a && destroyed == old(destroyed) + FailedIds(a)
      ensures AccountedFor(old(connectCalls), old(requestCalls), a)
      ensures old(table.Value()).active == [] ==> rv == APR_ECONNREFUSED && a == []
      ensures old(table.Value()).active != [] ==>
        StatusOf(a, if poolGiven then APR_ECONNREFUSED else APR_SUCCESS, rv)
      ensures old(table.Value()).active != [] ==>
        Served(old(table.Value()), start, poolGiven, old(stacks), rv, a, stacks, table.Value())
    {
      rv, a := if poolGiven then APR_ECONNREFUSED else APR_SUCCESS, [];
      NoAttempts(rv);
      hide WalkedSoFar, Budget, LastStatus, FailedIds, OnlyLastSucceeds, AnySuccess, GaveUp, IsPartition, Rotated,
           Served, Ended, Disjoint, Distinct, Truthful, Connects, Requests, StatusOf;
      if table.activeCount == 0 {
        return APR_ECONNREFUSED, [];
      }
      var copied := table.active[..table.activeCount];
      ghost var s0, p0, order, initial := stacks, table.Value(), Rotated(copied, start), rv;
      SnapshotFacts(table.Value(), table.trackerCount, start);
      WalkStarts(order, s0, initial, table.Value());
      var list := new TrackerList(copied, start);
      var finished;
      ghost var v;
      rv, finished, a, v := Walk(list, rv, order, s0, p0);
      LastStatusIs(a, initial);
      ServedAtLast(order, v, s0, p0, a, stacks, table.Value(), finished, initial);
      IsServed(p0, start, poolGiven, s0, rv, a, stacks, table.Value());
    }
  }

  lemma NoAttempts(initial: int)
    ensures LastStatus([], initial) == initial && FailedIds([]) == [] && !AnySuccess([])
    ensures forall s0 {:trigger Budget([], s0)} :: Budget([], s0) == 0
    ensures Connects([]) == 0 && Requests([]) == 0 && forall net, c, r :: Truthful([], net, c, r)
  {
  }

  // ------------------------------------------------- the walk as a whole

  /** A tracker the walk is done with: nothing pooled, tried afresh, and inactive if it could not be reached. */
  predicate GaveUp(t: int, a: seq<Attempt>, stacks: seq<Stack>, p: Partition) {
    && 0 <= t < |stacks| && stacks[t] == []
    && (exists k :: 0 <= k < |a| && a[k].tracker == t && Concludes(a[k]))
    && (ConnectFailed(t) in a ==> t in p.inactive && t !in p.active)
  }

  /** The table: exactly the trackers that could not be reached have changed sides. */
  ghost predicate TableAfter(p0: Partition, a: seq<Attempt>, p: Partition) {
    forall x ::
      && (x in p.active <==> x in p0.active && ConnectFailed(x) !in a)
      && (x in p.inactive <==> x in p0.inactive || (x in p0.active && ConnectFailed(x) in a))
  }

  /** The last `n` attempts are those on tracker `u`. */
  predicate LastRun(a: seq<Attempt>, u: int, n: nat) {
    && 0 < n <= |a|
    && (forall k :: |a| - n <= k < |a| ==> a[k].tracker == u)
    && (forall k :: 0 <= k < |a| - n ==> a[k].tracker != u)
  }

  /**
   Success on the v-th tracker of the walk: its connection is on top of that
   tracker's stack, above what the attempts there left of it; the trackers before
   are given up, and the stacks of all others are as they were.
   */
  ghost predicate Won(order: seq<int>, v: nat, s0: seq<Stack>, a: seq<Attempt>, stacks: seq<Stack>, p: Partition) {
    && 0 < v <= |order| && a != [] && Succeeded(a[|a| - 1]) && |stacks| == |s0|
    && (forall i :: 0 <= i < v - 1 ==> GaveUp(order[i], a, stacks, p))
    && (forall t :: 0 <= t < |s0| && t !in order[..v] ==> stacks[t] == s0[t])
    && var u := order[v - 1];
       && 0 <= u < |s0| && stacks[u] != [] && stacks[u][0].id == a[|a| - 1].id
       && exists n :: LastRun(a, u, n) && stacks[u][1..] == Rest(s0[u], n)
  }

  /** What a call over a non-empty snapshot achieves. */
  ghost predicate Served(p0: Partition, start: nat, poolGiven: bool, s0: seq<Stack>,
                         rv: int, a: seq<Attempt>, stacks: seq<Stack>, p: Partition)
  {
    var active := p0.active;
    // success is reported exactly when an attempt succeeded; without a caller's pool also when nothing could be reached
    && (rv == APR_SUCCESS <==> AnySuccess(a) || (!poolGiven && AllConnectsFailed(a)))
    && OnlyLastSucceeds(a)
    // at most one attempt for every idle connection, and one fresh connect for every tracker
    && start < |active|
    && (forall i :: 0 <= i < |active| ==> 0 <= Rotated(active, start)[i] < |s0|)
    && |a| <= Budget(Rotated(active, start), s0)
    // failure means every tracker of the snapshot was exhausted
    && (!AnySuccess(a) ==> forall t :: t in active ==> GaveUp(t, a, stacks, p))
    // success leaves the winner pooled with its tracker
    && (AnySuccess(a) ==> exists v :: Won(Rotated(active, start), v, s0, a, stacks, p))
    // other trackers' stacks are untouched, and only unreachable trackers changed sides
    && |stacks| == |s0| && (forall t :: 0 <= t < |s0| && t !in active ==> stacks[t] == s0[t])
    && TableAfter(p0, a, p)
  }

  /** The state of the walk after `v` trackers, none of which answered. */
  ghost predicate WalkedSoFar(order: seq<int>, v: nat, s0: seq<Stack>, p0: Partition,
                              a: seq<Attempt>, stacks: seq<Stack>, p: Partition)
  {
    && v <= |order| && Distinct(order) && |stacks| == |s0|
    && (forall i :: 0 <= i < |order| ==> 0 <= order[i] < |s0|)
    && !AnySuccess(a)
    && (forall i :: 0 <= i < v ==> GaveUp(order[i], a, stacks, p))
    && (forall t :: 0 <= t < |s0| && t !in order[..v] ==> stacks[t] == s0[t])
    && (forall i, k :: v <= i < |order| && 0 <= k < |a| ==> a[k].tracker != order[i])
    && (forall i :: 0 <= i < |order| ==> order[i] in p0.active)
    && TableAfter(p0, a, p) && Disjoint(p)
  }

  lemma NothingYet(tracker: int, s: Stack, initial: int)
    ensures Pending([], tracker, s) && LastStatus([], initial) == initial && FailedIds([]) == [] && s[0..] == s
    ensures Connects([]) == 0 && Requests([]) == 0 && forall net, c, r :: Truthful([], net, c, r)
  {
  }

  lemma PendingBound(a: seq<Attempt>, tracker: int, s: Stack)
    ensures Pending(a, tracker, s) ==> |a| <= |s|
  {
  }

  lemma WalkedIsLong(a: seq<Attempt>, tracker: int, s: Stack, finished: bool)
    requires Walked(a, tracker, s, finished)
    ensures a != [] && |a| <= |s| + 1
  {
  }

  function Ids(s: Stack): (r: seq<nat>)
    ensures |r| == |s| && forall i :: 0 <= i < |r| ==> r[i] == s[i].id
  {
    seq(|s|, i requires 0 <= i < |s| => s[i].id)
  }

  lemma SnapshotFacts(p: Partition, n: nat, start: nat)
    requires IsPartition(p, n) && start < |p.active|
    ensures var order := Rotated(p.active, start);
      && Distinct(order)
      && (forall i :: 0 <= i < |order| ==> 0 <= order[i] < n && order[i] in p.active)
      && (forall x :: x in p.active ==> x in order)
    ensures Disjoint(p)
  {
    var order := Rotated(p.active, start);
    RotatedVisitsAll(p.active, start);
    forall i | 0 <= i < |order| ensures 0 <= order[i] < n && order[i] in p.active {
      assert order[i] in order;
    }
  }

  lemma WalkStarts(order: seq<int>, s0: seq<Stack>, initial: int, p: Partition)
    requires Distinct(order) && forall i :: 0 <= i < |order| ==> 0 <= order[i] < |s0| && order[i] in p.active
    requires Disjoint(p)
    ensures WalkedSoFar(order, 0, s0, p, [], s0, p) && LastStatus([], initial) == initial && Budget(order[..0], s0) == 0
  {
  }

  lemma NextIsUntouched(order: seq<int>, v: nat, s0: seq<Stack>, p0: Partition, a: seq<Attempt>,
                        stacks: seq<Stack>, p: Partition)
    requires WalkedSoFar(order, v, s0, p0, a, stacks, p) && v < |order|
    ensures 0 <= order[v] < |stacks| == |s0| && stacks[order[v]] == s0[order[v]]
  {
    assert order[v] !in order[..v];
  }

  lemma {:induction false} LastStatusConcat(a: seq<Attempt>, b: seq<Attempt>, initial: int)
    ensures LastStatus(a + b, initial) == LastStatus(b, LastStatus(a, initial))
    ensures FailedIds(a + b) == FailedIds(a) + FailedIds(b)
    decreases |b|
  {
    if b == [] {
      assert a + b == a && FailedIds(b) == [];
    } else {
      var front, last := b[..|b| - 1], b[|b| - 1];
      assert b == front + [last] && a + b == (a + front) + [last];
      LastStatusConcat(a, front, initial);
      AppendAttempt(a + front, last, initial);
      AppendAttempt(front, last, LastStatus(a, initial));
    }
  }

  predicate Disjoint(p: Partition) {
    Distinct(p.active) && forall x :: x in p.active ==> x !in p.inactive
  }

  lemma DeactivateMembers(p: Partition, u: int)
    requires Disjoint(p)
    ensures var q := Deactivate(p, u);
      && Disjoint(q)
      && (forall x :: x in p.inactive ==> x in q.inactive)
      && (forall x :: x in q.active ==> x in p.active)
      && (forall x :: x in p.active ==> x in q.active || x in q.inactive)
      && (u in p.active || u in p.inactive ==> u in q.inactive && u !in q.active)
  {
    hide RemoveFirst;
    if u in p.active {
      RemoveFromDistinct(p.active, u);
      var q := Deactivate(p, u);
      assert forall i :: 0 <= i < |p.inactive| ==> q.inactive[i] == p.inactive[i];
      assert q.inactive[|p.inactive|] == u;
    }
  }

  lemma BudgetStep(order: seq<int>, v: nat, s0: seq<Stack>)
    requires v < |order| && forall i :: 0 <= i < |order| ==> 0 <= order[i] < |s0|
    ensures Budget(order[..v + 1], s0) == Budget(order[..v], s0) + |s0[order[v]]| + 1
  {
    assert order[..v + 1][..v] == order[..v];
  }

  lemma SuccessEndsWalk(a: seq<Attempt>, b: seq<Attempt>, tracker: int, s: Stack)
    requires !AnySuccess(a) && Walked(b, tracker, s, true)
    ensures OnlyLastSucceeds(a + b) && AnySuccess(a + b)
  {
    var c := a + b;
    assert c[|c| - 1] == b[|b| - 1];
  }

  lemma FailureGoesOn(a: seq<Attempt>, b: seq<Attempt>, tracker: int, s: Stack)
    requires !AnySuccess(a) && Walked(b, tracker, s, false)
    ensures !AnySuccess(a + b)
  {
    forall i | 0 <= i < |a + b| ensures !Succeeded((a + b)[i]) {
      assert (a + b)[i] == if i < |a| then a[i] else b[i - |a|];
    }
  }

  /** Going on to tracker `u` changes nothing for one already given up. */
  lemma GaveUpPersists(t: int, u: int, a: seq<Attempt>, b: seq<Attempt>, s1: seq<Stack>, s2: seq<Stack>,
                       p: Partition, q: Partition)
    requires GaveUp(t, a, s1, p) && t != u && |s2| == |s1| && s2[t] == s1[t]
    requires forall k :: 0 <= k < |b| ==> b[k].tracker == u
    requires forall x :: x in p.inactive ==> x in q.inactive
    requires forall x :: x in q.active ==> x in p.active
    ensures GaveUp(t, a + b, s2, q)
  {
    var k :| 0 <= k < |a| && a[k].tracker == t && Concludes(a[k]);
    assert (a + b)[k] == a[k];
  }

  lemma GaveUpNow(u: int, a: seq<Attempt>, b: seq<Attempt>, s: Stack, s2: seq<Stack>, p: Partition, q: Partition)
    requires Walked(b, u, s, false) && 0 <= u < |s2| && s2[u] == []
    requires forall k :: 0 <= k < |a| ==> a[k].tracker != u
    requires Disjoint(p) && (u in p.active || u in p.inactive)
    requires q == if b[|b| - 1].ConnectFailed? then Deactivate(p, u) else p
    ensures GaveUp(u, a + b, s2, q)
  {
    var k := |a| + |s|;
    assert (a + b)[k] == b[|s|];
    DeactivateMembers(p, u);
  }

  /** Only the last of a tracker's attempts can be a failed connect. */
  lemma FailedConnectIsLast(b: seq<Attempt>, u: int, s: Stack, finished: bool, x: int)
    requires Walked(b, u, s, finished)
    ensures ConnectFailed(x) in b <==> x == u && b[|b| - 1].ConnectFailed?
    ensures finished ==> !b[|b| - 1].ConnectFailed?
  {
    forall k | 0 <= k < |b| && b[k].ConnectFailed? ensures k == |b| - 1 && b[k] == ConnectFailed(u) {
    }
    if b[|b| - 1].ConnectFailed? {
      assert b[|b| - 1] == ConnectFailed(u);
    }
  }

  lemma TableStep(p0: Partition, a: seq<Attempt>, p: Partition, b: seq<Attempt>, u: int, s: Stack,
                  finished: bool, q: Partition)
    requires TableAfter(p0, a, p) && Disjoint(p) && Walked(b, u, s, finished)
    requires u in p0.active && forall k :: 0 <= k < |a| ==> a[k].tracker != u
    requires q == if !finished && b[|b| - 1].ConnectFailed? then Deactivate(p, u) else p
    ensures TableAfter(p0, a + b, q)
  {
    hide Walked, Deactivate;
    assert ConnectFailed(u) !in a;
    DeactivateMembers(p, u);
    forall x
      ensures x in q.active <==> x in p0.active && ConnectFailed(x) !in a + b
      ensures x in q.inactive <==> x in p0.inactive || (x in p0.active && ConnectFailed(x) in a + b)
    {
      FailedConnectIsLast(b, u, s, finished, x);
      if x != u {
        DeactivateOnly(p, u, x);
      }
    }
  }

  lemma DeactivateOnly(p: Partition, u: int, x: int)
    requires x != u && Disjoint(p)
    ensures x in Deactivate(p, u).active <==> x in p.active
    ensures x in Deactivate(p, u).inactive <==> x in p.inactive
  {
    if u in p.active {
      RemoveFromDistinct(p.active, u);
    }
  }

  lemma FailedWalkOn(order: seq<int>, v: nat, s0: seq<Stack>, p0: Partition, a: seq<Attempt>, s1: seq<Stack>,
                     p: Partition, b: seq<Attempt>, s2: seq<Stack>, q: Partition)
    requires WalkedSoFar(order, v, s0, p0, a, s1, p) && v < |order| && |s2| == |s1|
    requires Walked(b, order[v], s0[order[v]], false)
    requires forall t :: 0 <= t < |s2| && t != order[v] ==> s2[t] == s1[t]
    requires s2[order[v]] == []
    requires q == if b[|b| - 1].ConnectFailed? then Deactivate(p, order[v]) else p
    ensures WalkedSoFar(order, v + 1, s0, p0, a + b, s2, q)
  {
    hide Deactivate, TableAfter;
    var u := order[v];
    UntouchedTable(p0, a, p, u);
    DeactivateMembers(p, u);
    FailureGoesOn(a, b, u, s0[u]);
    GaveUpNow(u, a, b, s0[u], s2, p, q);
    TableStep(p0, a, p, b, u, s0[u], false, q);
    forall i | 0 <= i < v ensures GaveUp(order[i], a + b, s2, q) {
      GaveUpPersists(order[i], u, a, b, s1, s2, p, q);
    }
    forall i, k | v + 1 <= i < |order| && 0 <= k < |a + b| ensures (a + b)[k].tracker != order[i] {
      assert (a + b)[k] == if k < |a| then a[k] else b[k - |a|];
    }
    assert order[..v + 1] == order[..v] + [u];
  }

  lemma UntouchedTable(p0: Partition, a: seq<Attempt>, p: Partition, u: int)
    requires TableAfter(p0, a, p) && u in p0.active && forall k :: 0 <= k < |a| ==> a[k].tracker != u
    ensures u in p.active
  {
  }

  /** A successful walk that ended on its v-th tracker. */
  ghost predicate Ended(order: seq<int>, v: nat, s0: seq<Stack>, p0: Partition,
                        a: seq<Attempt>, stacks: seq<Stack>, p: Partition)
  {
    OnlyLastSucceeds(a) && AnySuccess(a) && Won(order, v, s0, a, stacks, p) && TableAfter(p0, a, p)
  }

  lemma WonWalkOn(order: seq<int>, v: nat, s0: seq<Stack>, p0: Partition, a: seq<Attempt>, s1: seq<Stack>,
                  p: Partition, b: seq<Attempt>, s2: seq<Stack>)
    requires WalkedSoFar(order, v, s0, p0, a, s1, p) && v < |order| && |s2| == |s1|
    requires Walked(b, order[v], s0[order[v]], true)
    requires forall t :: 0 <= t < |s2| && t != order[v] ==> s2[t] == s1[t]
    requires s2[order[v]] != [] && s2[order[v]][0].id == b[|b| - 1].id
    requires s2[order[v]][1..] == Rest(s0[order[v]], |b|)
    ensures Ended(order, v + 1, s0, p0, a + b, s2, p)
  {
    hide TableAfter;
    var u, all := order[v], a + b;
    SuccessEndsWalk(a, b, u, s0[u]);
    TableStep(p0, a, p, b, u, s0[u], true, p);
    forall i | 0 <= i < v ensures GaveUp(order[i], all, s2, p) {
      GaveUpPersists(order[i], u, a, b, s1, s2, p, p);
    }
    assert order[..v + 1] == order[..v] + [u];
    assert all[|all| - 1] == b[|b| - 1];
    assert LastRun(all, u, |b|);
  }

  lemma WalkOn(order: seq<int>, v: nat, s0: seq<Stack>, p0: Partition, a: seq<Attempt>, s1: seq<Stack>, p: Partition,
               b: seq<Attempt>, s2: seq<Stack>, q: Partition, finished: bool, initial: int)
    requires WalkedSoFar(order, v, s0, p0, a, s1, p) && v < |order| && |s2| == |s1|
    requires Walked(b, order[v], s0[order[v]], finished)
    requires forall t :: 0 <= t < |s2| && t != order[v] ==> s2[t] == s1[t]
    requires if finished then
        s2[order[v]] != [] && s2[order[v]][0].id == b[|b| - 1].id && s2[order[v]][1..] == Rest(s0[order[v]], |b|)
      else s2[order[v]] == []
    requires q == if !finished && b[|b| - 1].ConnectFailed? then Deactivate(p, order[v]) else p
    requires |a| <= Budget(order[..v], s0)
    ensures LastStatus(a + b, initial) == LastStatus(b, LastStatus(a, initial))
    ensures FailedIds(a + b) == FailedIds(a) + FailedIds(b)
    ensures |a + b| <= Budget(order[..v + 1], s0)
    ensures finished ==> Ended(order, v + 1, s0, p0, a + b, s2, q)
    ensures !finished ==> WalkedSoFar(order, v + 1, s0, p0, a + b, s2, q)
  {
    LastStatusConcat(a, b, initial);
    BudgetStep(order, v, s0);
    WalkedIsLong(b, order[v], s0[order[v]], finished);
    hide WalkedSoFar, Ended, Rest, Walked, Budget, LastStatus, FailedIds, Deactivate;
    if finished {
      WonWalkOn(order, v, s0, p0, a, s1, p, b, s2);
    } else {
      FailedWalkOn(order, v, s0, p0, a, s1, p, b, s2, q);
    }
  }

  /** What the end of the walk means for the trackers of the snapshot. */
  ghost predicate Outcome(order: seq<int>, s0: seq<Stack>, p0: Partition, a: seq<Attempt>, stacks: seq<Stack>,
                          p: Partition)
  {
    && OnlyLastSucceeds(a) && TableAfter(p0, a, p)
    && (!AnySuccess(a) ==> forall t :: t in order ==> GaveUp(t, a, stacks, p))
    && (AnySuccess(a) ==> exists v :: Won(order, v, s0, a, stacks, p))
    && |stacks| == |s0| && (forall t :: 0 <= t < |s0| && t !in order ==> stacks[t] == s0[t])
  }

  lemma ServedAtLast(order: seq<int>, v: nat, s0: seq<Stack>, p0: Partition, a: seq<Attempt>, stacks: seq<Stack>,
                     p: Partition, finished: bool, initial: int)
    requires v <= |order| && forall i :: 0 <= i < |order| ==> 0 <= order[i] < |s0|
    requires if finished then Ended(order, v, s0, p0, a, stacks, p)
      else WalkedSoFar(order, v, s0, p0, a, stacks, p) && v == |order|
    requires |a| <= Budget(order[..v], s0)
    ensures |a| <= Budget(order, s0) && Outcome(order, s0, p0, a, stacks, p)
    ensures LastStatus(a, initial) == APR_SUCCESS <==> AnySuccess(a) || (initial == APR_SUCCESS && AllConnectsFailed(a))
  {
    hide TableAfter, GaveUp;
    BudgetMonotone(order, v, s0);
    hide Budget;
    if !finished {
      assert forall i :: 0 <= i < |a| ==> !Succeeded(a[i]);
      assert order[..v] == order;
    } else {
      assert forall t :: t !in order ==> t !in order[..v];
    }
    LastStatusIff(a, initial);
  }

  lemma {:induction false} BudgetMonotone(order: seq<int>, v: nat, s0: seq<Stack>)
    requires v <= |order| && forall i :: 0 <= i < |order| ==> 0 <= order[i] < |s0|
    ensures Budget(order[..v], s0) <= Budget(order, s0)
    decreases |order|
  {
    if v == |order| {
      assert order[..v] == order;
    } else {
      assert order[..|order| - 1][..v] == order[..v];
      BudgetMonotone(order[..|order| - 1], v, s0);
    }
  }

  lemma IsServed(p0: Partition, start: nat, poolGiven: bool, s0: seq<Stack>, rv: int,
                 a: seq<Attempt>, stacks: seq<Stack>, p: Partition)
    requires start < |p0.active|
    requires forall i :: 0 <= i < |p0.active| ==> 0 <= Rotated(p0.active, start)[i] < |s0|
    requires |a| <= Budget(Rotated(p0.active, start), s0)
    requires rv == APR_SUCCESS <==> AnySuccess(a) || (!poolGiven && AllConnectsFailed(a))
    requires Outcome(Rotated(p0.active, start), s0, p0, a, stacks, p)
    ensures Served(p0, start, poolGiven, s0, rv, a, stacks, p)
  {
    hide Won, GaveUp, TableAfter;
    RotatedVisitsAll(p0.active, start);
  }

  // ---------------------------------------------- a call without a memory pool

  /** One tracker, nothing pooled, no connect succeeds: one refused connect is all that can happen. */
  lemma OnlyRefused(net: Network, a: seq<Attempt>, p0: Partition, poolGiven: bool, rv: int,
                    stacks: seq<Stack>, p: Partition)
    requires p0.active == [0] && (forall k :: !net.connects(k)) && (forall k :: net.status(k) != APR_SUCCESS)
    requires Truthful(a, net, 0, 0) && Served(p0, 0, poolGiven, [[]], rv, a, stacks, p)
    ensures a == [ConnectFailed(0)] && (rv == APR_SUCCESS <==> !poolGiven)
  {
    var order := Rotated([0], 0);
    assert order == [0];
    assert Budget(order, [[]]) == 1 by {
      assert order[..0] == [] && Budget([], [[]]) == 0;
    }
    hide Won, TableAfter;
    if a != [] {
      assert a[..0] == [] && Truthful([], net, 0, 0);
      assert AttemptTrue(a[0], net, Connects([]), Requests([]));
    }
    assert !AnySuccess(a);
    assert 0 in p0.active && GaveUp(0, a, stacks, p);
  }

  /** Then a call says that it succeeded if and only if it was given no memory pool. */
  method NullPoolReportsSuccess(poolGiven: bool) returns (rv: int, ghost a: seq<Attempt>)
    ensures a == [ConnectFailed(0)] && (rv == APR_SUCCESS <==> !poolGiven)
  {
    hide Served, Truthful, FailedIds, IsPartition, Rotated, Connects, Requests;
    var net := Network(_ => false, _ => 1, _ => 0);
    var table := new Table(1);
    table.Register(true);
    assert table.Value() == Partition([0], []);
    var pool := new TrackerPool(net, table);
    ghost var p0, s0 := table.Value(), pool.stacks;
    assert s0 == [[]];
    rv, a := pool.RequestDo(0, poolGiven);
    OnlyRefused(net, a, p0, poolGiven, rv, pool.stacks, table.Value());
  }
}
