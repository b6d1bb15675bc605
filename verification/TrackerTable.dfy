/**
 The active/inactive tables of a tracker pool and the rotating snapshot taken
 of them (src/pool.c).  Two int arrays are shifted in place; `Partition` is
 the value they denote.
 */
module TrackerTable {
  import opened Common

  datatype Partition = Partition(active: seq<int>, inactive: seq<int>)

  /** Every index below n is in exactly one of the two lists, once. */
  predicate IsPartition(p: Partition, n: nat) {
    && |p.active| + |p.inactive| == n
    && Distinct(p.active) && Distinct(p.inactive)
    && (forall i :: 0 <= i < |p.active| ==> 0 <= p.active[i] < n && p.active[i] !in p.inactive)
    && (forall i :: 0 <= i < |p.inactive| ==> 0 <= p.inactive[i] < n)
    && (forall x :: 0 <= x < n ==> x in p.active || x in p.inactive)
  }

  function RemoveFirst(s: seq<int>, x: int): seq<int> {
    if s == [] then [] else if s[0] == x then s[1..] else [s[0]] + RemoveFirst(s[1..], x)
  }

  function Activate(p: Partition, x: int): Partition {
    if x in p.inactive then Partition(p.active + [x], RemoveFirst(p.inactive, x)) else p
  }

  function Deactivate(p: Partition, x: int): Partition {
    if x in p.active then Partition(RemoveFirst(p.active, x), p.inactive + [x]) else p
  }

  // ---------------------------------------------------------------- lemmas

  /** Removal closes the gap and keeps the order of the rest. */
  lemma {:induction false} RemoveFirstAt(s: seq<int>, x: int, k: nat)
    requires k < |s| && s[k] == x && x !in s[..k]
    ensures RemoveFirst(s, x) == s[..k] + s[k + 1..]
  {
    if k > 0 {
      assert s[0] in s[..k];
      assert s[1..][..k - 1] == s[..k][1..];
      RemoveFirstAt(s[1..], x, k - 1);
      assert s[1..][..k - 1] + s[1..][k..] == s[1..k] + s[k + 1..];
      assert s[..k] == [s[0]] + s[1..k];
    }
  }

  lemma RemoveFromDistinct(s: seq<int>, x: int)
    requires Distinct(s) && x in s
    ensures var r := RemoveFirst(s, x);
      && Distinct(r) && |r| == |s| - 1 && x !in r
      && (forall y :: y in s && y != x ==> y in r)
      && (forall y :: y in r ==> y in s)
  {
    var k :| 0 <= k < |s| && s[k] == x;
    RemoveFirstAt(s, x, k);
    hide RemoveFirst;
    var r := s[..k] + s[k + 1..];
    forall i | 0 <= i < |r| ensures r[i] == s[if i < k then i else i + 1] && r[i] in s && r[i] != x {
      assert r[i] == s[if i < k then i else i + 1];
    }
    forall y | y in s && y != x ensures y in r {
      RestKeeps(s, k, y);
    }
  }

  lemma RestKeeps(s: seq<int>, k: nat, y: int)
    requires k < |s| && y in s && y != s[k]
    ensures y in s[..k] + s[k + 1..]
  {
    var i :| 0 <= i < |s| && s[i] == y;
    assert (s[..k] + s[k + 1..])[if i < k then i else i - 1] == y;
  }

  lemma AppendDistinct(s: seq<int>, x: int)
    requires Distinct(s) && x !in s
    ensures Distinct(s + [x])
  {
  }

  lemma MoveKeepsPartition(a: seq<int>, b: seq<int>, x: int, n: nat)
    requires IsPartition(Partition(a, b), n) && x in a
    ensures IsPartition(Partition(RemoveFirst(a, x), b + [x]), n)
  {
    hide RemoveFirst;
    RemoveFromDistinct(a, x);
    var i :| 0 <= i < |a| && a[i] == x;
    AppendDistinct(b, x);
    var p := Partition(RemoveFirst(a, x), b + [x]);
    forall i | 0 <= i < |p.active| ensures 0 <= p.active[i] < n && p.active[i] !in p.inactive {
      var y := p.active[i];
      assert y in a;
      var j :| 0 <= j < |a| && a[j] == y;
    }
  }

  lemma PartitionSymmetric(a: seq<int>, b: seq<int>, n: nat)
    requires IsPartition(Partition(a, b), n)
    ensures IsPartition(Partition(b, a), n)
  {
    forall i | 0 <= i < |b| ensures b[i] !in a {
      assert b[i] in b;
    }
  }

  lemma ActivateKeepsPartition(p: Partition, x: int, n: nat)
    requires IsPartition(p, n)
    ensures IsPartition(Activate(p, x), n)
  {
    if x in p.inactive {
      PartitionSymmetric(p.active, p.inactive, n);
      MoveKeepsPartition(p.inactive, p.active, x, n);
      PartitionSymmetric(RemoveFirst(p.inactive, x), p.active + [x], n);
    }
  }

  lemma DeactivateKeepsPartition(p: Partition, x: int, n: nat)
    requires IsPartition(p, n)
    ensures IsPartition(Deactivate(p, x), n)
    ensures x in p.active || x in p.inactive ==> x in Deactivate(p, x).inactive && x !in Deactivate(p, x).active
  {
    if x in p.active {
      MoveKeepsPartition(p.active, p.inactive, x, n);
      RemoveFromDistinct(p.active, x);
    } else {
      assert x in p.inactive ==> x !in p.active;
    }
  }

  /** The list without one occurrence of x, the rest in order. */
  predicate TakenOut(was: seq<int>, x: int, now: seq<int>) {
    exists k :: 0 <= k < |was| && was[k] == x && now == was[..k] + was[k + 1..]
  }

  lemma RemoveFirstTakesOut(s: seq<int>, x: int)
    requires Distinct(s) && x in s
    ensures TakenOut(s, x, RemoveFirst(s, x)) && x !in RemoveFirst(s, x)
  {
    var k :| 0 <= k < |s| && s[k] == x;
    RemoveFirstAt(s, x, k);
    RemoveFromDistinct(s, x);
  }

  lemma ActivateTakesOut(p: Partition, x: int, n: nat)
    requires IsPartition(p, n)
    ensures x in p.inactive ==>
      Activate(p, x).active == p.active + [x] && TakenOut(p.inactive, x, Activate(p, x).inactive)
  {
    if x in p.inactive {
      RemoveFirstTakesOut(p.inactive, x);
    }
  }

  lemma DeactivateTakesOut(p: Partition, x: int, n: nat)
    requires IsPartition(p, n)
    ensures x in p.active ==>
      Deactivate(p, x).inactive == p.inactive + [x] && TakenOut(p.active, x, Deactivate(p, x).active)
  {
    if x in p.active {
      RemoveFirstTakesOut(p.active, x);
    }
  }

  /** Activation puts an inactive tracker at the end of the active list, and leaves every other one where it was. */
  lemma ActivateMoves(p: Partition, x: int, n: nat)
    requires IsPartition(p, n)
    ensures var q := Activate(p, x);
      if x in p.inactive then
        && q.active == p.active + [x] && TakenOut(p.inactive, x, q.inactive) && x !in q.inactive
        && forall y :: y != x ==> (y in q.active <==> y in p.active) && (y in q.inactive <==> y in p.inactive)
      else q == p
  {
    if x in p.inactive {
      RemoveFirstTakesOut(p.inactive, x);
      RemoveFromDistinct(p.inactive, x);
    }
  }

  /** Deactivation puts an active tracker at the end of the inactive list, and leaves every other one where it was. */
  lemma DeactivateMoves(p: Partition, x: int, n: nat)
    requires IsPartition(p, n)
    ensures var q := Deactivate(p, x);
      if x in p.active then
        && q.inactive == p.inactive + [x] && TakenOut(p.active, x, q.active) && x !in q.active
        && forall y :: y != x ==> (y in q.active <==> y in p.active) && (y in q.inactive <==> y in p.inactive)
      else q == p
  {
    if x in p.active {
      RemoveFirstTakesOut(p.active, x);
      RemoveFromDistinct(p.active, x);
    }
  }

  datatype TableOp = ActivateOp(index: int) | DeactivateOp(index: int)

  function RunTable(p: Partition, ops: seq<TableOp>): Partition
    decreases |ops|
  {
    if ops == [] then p
    else
      RunTable(match ops[0] case ActivateOp(x) => Activate(p, x) case DeactivateOp(x) => Deactivate(p, x), ops[1..])
  }

  /** Activations, deactivations and failed connects, in any order and number, keep the two lists a partition. */
  lemma {:induction false} PartitionThroughout(p: Partition, n: nat, ops: seq<TableOp>)
    requires IsPartition(p, n)
    ensures IsPartition(RunTable(p, ops), n)
    decreases |ops|
  {
    hide Activate, Deactivate, IsPartition;
    if ops != [] {
      match ops[0] {
        case ActivateOp(x) =>
          ActivateKeepsPartition(p, x, n);
          PartitionThroughout(Activate(p, x), n, ops[1..]);
        case DeactivateOp(x) =>
          DeactivateKeepsPartition(p, x, n);
          PartitionThroughout(Deactivate(p, x), n, ops[1..]);
      }
    }
  }

  // ------------------------------------------------------------ the arrays

  /**
   remove_from_array: closes the gap by copying down, reading one cell past
   `length` on the way; that cell must exist, and its value does not matter.
   */
  method RemoveFromArray(values: array<int>, length: nat, test: int) returns (found: bool)
    requires length < values.Length
    modifies values
    ensures found <==> test in old(values[..length])
    ensures found ==> length > 0 && values[..length - 1] == RemoveFirst(old(values[..length]), test)
    ensures !found ==> values[..] == old(values[..])
    ensures values[length..] == old(values[length..])
  {
    ghost var was, p := values[..], length;
    found, p := ShiftDown(values, length, test);
    if found {
      RemovedByShift(was, values[..], length, p, test);
      assert test in was[..length] by {
        assert was[..length][p] == test;
      }
    } else {
      assert values[..] == was;
      assert was[..length] == values[..length];
    }
    assert values[length..] == was[length..];
    assert was[..length] == old(values[..length]);
  }

  /** The loop: `p` is where the value was found, or `length`. */
  method ShiftDown(values: array<int>, length: nat, test: int) returns (found: bool, ghost p: nat)
    requires length < values.Length
    modifies values
    ensures found <==> p < length
    ensures p <= length && test !in old(values[..])[..p] && (found ==> old(values[p]) == test)
    ensures forall j :: 0 <= j < p ==> values[j] == old(values[j])
    ensures forall j :: p <= j < length ==> values[j] == old(values[j + 1])
    ensures forall j :: length <= j < values.Length ==> values[j] == old(values[j])
  {
    found, p := false, length;
    ghost var was := values[..];
    var i := 0;
    while i < length
      invariant 0 <= i <= length
      invariant found <==> p < i
      invariant found ==> was[p] == test && test !in was[..p]
      invariant !found ==> p == length && test !in was[..i]
      invariant forall j :: 0 <= j < i && j < p ==> values[j] == was[j]
      invariant forall j :: p <= j < i ==> values[j] == was[j + 1]
      invariant forall j :: i <= j < values.Length ==> values[j] == was[j]
    {
      if found {
        values[i] := values[i + 1];
      } else if values[i] == test {
        found, p := true, i;
        values[i] := values[i + 1];
      }
      i := i + 1;
    }
  }

  lemma RemovedByShift(was: seq<int>, now: seq<int>, length: nat, p: nat, test: int)
    requires p < length < |was| == |now| && was[p] == test && test !in was[..p]
    requires forall j :: 0 <= j < p ==> now[j] == was[j]
    requires forall j :: p <= j < length ==> now[j] == was[j + 1]
    ensures now[..length - 1] == RemoveFirst(was[..length], test)
  {
    assert was[..length][..p] == was[..p];
    RemoveFirstAt(was[..length], test, p);
    assert now[..length - 1] == was[..p] + was[..length][p + 1..];
  }

  /** What both changes of side do: out of one list, and into the cell after the other's last. */
  method MoveBetween(from: array<int>, fromCount: nat, to: array<int>, toCount: nat, x: int) returns (found: bool)
    requires from != to && fromCount < from.Length && toCount < to.Length
    modifies from, to
    ensures found <==> x in old(from[..fromCount])
    ensures found ==>
      && fromCount > 0 && from[..fromCount - 1] == RemoveFirst(old(from[..fromCount]), x)
      && to[..toCount + 1] == old(to[..toCount]) + [x]
    ensures !found ==> from[..fromCount] == old(from[..fromCount]) && to[..toCount] == old(to[..toCount])
  {
    hide RemoveFirst;
    found := RemoveFromArray(from, fromCount, x);
    if found {
      to[toCount] := x;
    } else {
      assert from[..fromCount] == from[..][..fromCount];
    }
  }

  class Table {
    const maxTrackerCount: nat
    const active: array<int>
    const inactive: array<int>
    var trackerCount: nat
    var activeCount: nat
    var inactiveCount: nat

    /** The arrays have room for every tracker and the one cell more that removal reads. */
    ghost predicate Shape()
      reads this
    {
      && active != inactive
      && active.Length == inactive.Length == maxTrackerCount + 1
      && trackerCount <= maxTrackerCount
      && activeCount <= maxTrackerCount && inactiveCount <= maxTrackerCount
    }

    ghost function Value(): Partition
      reads this, active, inactive
      requires Shape()
    {
      Partition(active[..activeCount], inactive[..inactiveCount])
    }

    ghost predicate Valid()
      reads this, active, inactive
    {
      Shape() && IsPartition(Value(), trackerCount)
    }

    /** mfs_pool_init. */
    constructor (max: nat)
      ensures Valid() && Value() == Partition([], []) && maxTrackerCount == max && trackerCount == 0
      ensures fresh(active) && fresh(inactive)
    {
      maxTrackerCount := max;
      active, inactive := new int[max + 1], new int[max + 1];
      trackerCount, activeCount, inactiveCount := 0, 0, 0;
    }

    /**
     mfs_pool_register_tracker, once the address resolves.  The new index is
     written at trackerCount although the active list ends at activeCount.  The
     tables stay a partition exactly when nothing is inactive, or the stale cell
     the active list grows over happens to hold the new index already; otherwise
     the new tracker is in neither list.
     */
    method Register(resolves: bool)
      requires Valid()
      modifies this, active
      ensures Shape()
      ensures !resolves || old(trackerCount) == maxTrackerCount ==>
        Value() == old(Value()) && trackerCount == old(trackerCount)
      ensures resolves && old(trackerCount) < maxTrackerCount ==>
        && trackerCount == old(trackerCount) + 1
        && (IsPartition(Value(), trackerCount) <==>
             old(inactiveCount) == 0 || old(active[activeCount]) == old(trackerCount))
      ensures resolves && old(trackerCount) < maxTrackerCount ==>
        var x := if old(inactiveCount) == 0 then old(trackerCount) else old(active[activeCount]);
        && Value() == Partition(old(Value()).active + [x], old(Value()).inactive)
        && (x != old(trackerCount) ==> old(trackerCount) !in Value().active && old(trackerCount) !in Value().inactive)
    {
      if trackerCount == maxTrackerCount || !resolves {
        return;
      }
      ghost var p, n := Value(), trackerCount;
      ghost var stale := active[activeCount];
      active[trackerCount] := trackerCount;
      activeCount := activeCount + 1;
      trackerCount := trackerCount + 1;
      ghost var x := if inactiveCount == 0 then n else stale;
      assert Value() == Partition(p.active + [x], p.inactive);
      RegisteredIff(p, x, n);
    }

    /** mfs_pool_activate. */
    method ActivateTracker(x: int)
      requires Valid()
      modifies this`activeCount, this`inactiveCount, active, inactive
      ensures Valid() && Value() == Activate(old(Value()), x)
      ensures x in old(Value()).inactive ==>
        Value().active == old(Value()).active + [x] && TakenOut(old(Value()).inactive, x, Value().inactive)
      ensures x !in old(Value()).inactive ==> Value() == old(Value())
    {
      ghost var p := Value();
      hide TakenOut, RemoveFirst, IsPartition;
      ActivateTakesOut(p, x, trackerCount);
      ActivateKeepsPartition(p, x, trackerCount);
      var found := MoveBetween(inactive, inactiveCount, active, activeCount, x);
      if found {
        inactiveCount := inactiveCount - 1;
        activeCount := activeCount + 1;
      }
      assert Value() == Activate(p, x);
    }

    /** The locked section of mfs_pool_deactivate. */
    method DeactivateTracker(x: int) returns (removed: bool)
      requires Valid()
      modifies this`activeCount, this`inactiveCount, active, inactive
      ensures Valid() && Value() == Deactivate(old(Value()), x)
      ensures removed <==> x in old(Value()).active
      ensures removed ==>
        Value().inactive == old(Value()).inactive + [x] && TakenOut(old(Value()).active, x, Value().active)
      ensures !removed ==> Value() == old(Value())
    {
      ghost var p := Value();
      hide TakenOut, RemoveFirst, IsPartition;
      DeactivateTakesOut(p, x, trackerCount);
      DeactivateKeepsPartition(p, x, trackerCount);
      removed := MoveBetween(active, activeCount, inactive, inactiveCount, x);
      if removed {
        activeCount := activeCount - 1;
        inactiveCount := inactiveCount + 1;
      }
      assert Value() == Deactivate(p, x);
    }
  }

  lemma RegisteredIff(p: Partition, x: int, n: nat)
    requires IsPartition(p, n)
    ensures IsPartition(Partition(p.active + [x], p.inactive), n + 1) <==> x == n
  {
    var q := Partition(p.active + [x], p.inactive);
    if x == n {
      assert n !in p.active && n !in p.inactive;
      AppendDistinct(p.active, x);
      forall y | 0 <= y < n + 1 ensures y in q.active || y in q.inactive {
        if y == n {
          assert q.active[|p.active|] == n;
        } else if y in p.active {
          var i :| 0 <= i < |p.active| && p.active[i] == y;
          assert q.active[i] == y;
        }
      }
    } else {
      assert n !in q.active && n !in q.inactive;
    }
  }

  // ----------------------------------------------------------- the snapshot

  /** The order a snapshot is walked in. */
  function Rotated(s: seq<int>, start: nat): (r: seq<int>)
    requires start <= |s|
    ensures |r| == |s|
  {
    s[start..] + s[..start]
  }

  /** Every entry is visited once, wherever the walk starts. */
  lemma RotatedVisitsAll(s: seq<int>, start: nat)
    requires start <= |s|
    ensures multiset(Rotated(s, start)) == multiset(s)
    ensures Distinct(s) ==> Distinct(Rotated(s, start))
    ensures forall x :: x in s <==> x in Rotated(s, start)
  {
    assert s == s[..start] + s[start..];
    var r := Rotated(s, start);
    forall x ensures x in s <==> x in r {
      assert x in s <==> x in multiset(s);
      assert x in r <==> x in multiset(r);
    }
  }

  class TrackerList {
    const indexes: seq<int>
    const startPosition: nat
    var currentPosition: int
    /** How many entries of the rotation have been handed out. */
    ghost var visited: nat

    ghost predicate Valid()
      reads this
    {
      && startPosition < |indexes|
      && visited <= |indexes|
      && currentPosition ==
           (if visited == 0 then -1
            else if startPosition + visited - 1 < |indexes| then startPosition + visited - 1
            else startPosition + visited - 1 - |indexes|)
    }

    /** The copy mfs_pool_list_active_trackers makes; any start is possible. */
    constructor (copied: seq<int>, start: nat)
      requires start < |copied|
      ensures Valid() && indexes == copied && startPosition == start && visited == 0
    {
      indexes, startPosition, currentPosition, visited := copied, start, -1, 0;
    }

    /** mfs_pool_current_tracker_index. */
    function Current(): int
      requires Valid()
      reads this
    {
      if currentPosition == -1 then indexes[startPosition] else indexes[currentPosition]
    }

    /** mfs_pool_next_tracker: the next of the rotation, and NULL once all have been handed out. */
    method Next() returns (more: bool)
      requires Valid()
      modifies this
      ensures Valid()
      ensures more <==> old(visited) < |indexes|
      ensures more ==> visited == old(visited) + 1 && Current() == Rotated(indexes, startPosition)[old(visited)]
      ensures more ==>
        var k, n := startPosition + old(visited), |indexes|; Current() == indexes[if k < n then k else k - n]
      ensures !more ==> visited == 1
    {
      if currentPosition == -1 {
        currentPosition := startPosition;
      } else {
        currentPosition := currentPosition + 1;
        if currentPosition >= |indexes| {
          currentPosition := 0;
        }
        if currentPosition == startPosition {
          visited := 1;
          return false;
        }
      }
      visited := visited + 1;
      return true;
    }
  }
}
