/**
 The idle-connection stack of one tracker as a sequence, newest first
 (src/pool.c).  `Entry` is what the list code reads and writes; the pointer
 ring in ConnectionRing is proved to carry out exactly these operations.
 */
module StackSpec {

  /** A pooled connection and the time it was last put back. */
  datatype Entry = Entry(id: nat, lastUsed: int)

  type Stack = seq<Entry>

  function Push(s: Stack, e: Entry): Stack {
    [e] + s
  }

  /** What is left after a pop; popping an empty stack leaves it empty. */
  function Pop(s: Stack): Stack {
    if s == [] then [] else s[1..]
  }

  /** Where the scan from the tail stops: the start of the longest all-expired tail. */
  function TailStart(s: Stack, cutoff: int): (k: nat)
    ensures k <= |s|
  {
    if s == [] then 0
    else if s[|s| - 1].lastUsed < cutoff then TailStart(s[..|s| - 1], cutoff)
    else |s|
  }

  function Kept(s: Stack, cutoff: int): Stack {
    s[..TailStart(s, cutoff)]
  }

  function Expired(s: Stack, cutoff: int): Stack {
    s[TailStart(s, cutoff)..]
  }

  /** The plain filter that expiry is for. */
  function Fresh(s: Stack, cutoff: int): Stack {
    if s == [] then []
    else Fresh(s[..|s| - 1], cutoff) + if s[|s| - 1].lastUsed < cutoff then [] else [s[|s| - 1]]
  }

  predicate Sorted(s: Stack) {
    forall i, j :: 0 <= i < j < |s| ==> s[i].lastUsed >= s[j].lastUsed
  }

  // ---------------------------------------------------------------- lemmas

  /** The cut is at the longest tail all of whose entries have expired, and nowhere else. */
  lemma {:induction false} TailStartIsLongest(s: Stack, cutoff: int)
    ensures var k := TailStart(s, cutoff);
      && (forall i :: k <= i < |s| ==> s[i].lastUsed < cutoff)
      && (k > 0 ==> s[k - 1].lastUsed >= cutoff)
  {
    if s != [] && s[|s| - 1].lastUsed < cutoff {
      TailStartIsLongest(s[..|s| - 1], cutoff);
    }
  }

  lemma TailStartUnique(s: Stack, cutoff: int, k: nat)
    requires k <= |s| && (forall i :: k <= i < |s| ==> s[i].lastUsed < cutoff)
    requires k > 0 ==> s[k - 1].lastUsed >= cutoff
    ensures TailStart(s, cutoff) == k
  {
    TailStartIsLongest(s, cutoff);
  }

  /** No expired entry stands nearer the head than a fresh one. */
  predicate Separated(s: Stack, cutoff: int) {
    forall i, j :: 0 <= i < j < |s| && s[i].lastUsed < cutoff ==> s[j].lastUsed < cutoff
  }

  lemma {:induction false} FreshMembers(s: Stack, cutoff: int)
    ensures |Fresh(s, cutoff)| <= |s|
    ensures forall i :: 0 <= i < |Fresh(s, cutoff)| ==> Fresh(s, cutoff)[i].lastUsed >= cutoff
    ensures (forall i :: 0 <= i < |s| ==> s[i].lastUsed >= cutoff) ==> Fresh(s, cutoff) == s
  {
    if s != [] {
      FreshMembers(s[..|s| - 1], cutoff);
    }
  }

  /**
   One scan from the tail removes all and only the expired entries if and only
   if the stack has them all behind the fresh ones.
   */
  lemma {:induction false} TailScanIsFilterIff(s: Stack, cutoff: int)
    ensures Kept(s, cutoff) == Fresh(s, cutoff) <==> Separated(s, cutoff)
  {
    if s != [] {
      var front, last := s[..|s| - 1], s[|s| - 1];
      FreshMembers(s, cutoff);
      if last.lastUsed < cutoff {
        TailScanIsFilterIff(front, cutoff);
        assert Kept(s, cutoff) == Kept(front, cutoff);
        assert Separated(s, cutoff) <==> Separated(front, cutoff);
      } else {
        assert Kept(s, cutoff) == s;
        if Separated(s, cutoff) {
          assert forall i :: 0 <= i < |s| ==> s[i].lastUsed >= cutoff;
        } else {
          var i :| 0 <= i < |s| && s[i].lastUsed < cutoff;
          assert Fresh(s, cutoff) != s;
        }
      }
    }
  }

  /** In particular a sorted stack is cut exactly, at every cutoff. */
  lemma SortedIsSeparated(s: Stack, cutoff: int)
    requires Sorted(s)
    ensures Separated(s, cutoff)
  {
  }

  // ------------------------------------------------------------- histories

  datatype Op = PushOp(entry: Entry) | PopOp | DrainOp | ExpireOp(cutoff: int)

  function Apply(s: Stack, op: Op): Stack {
    match op
    case PushOp(e) => Push(s, e)
    case PopOp => Pop(s)
    case DrainOp => []
    case ExpireOp(cutoff) => Kept(s, cutoff)
  }

  function RunOps(s: Stack, ops: seq<Op>): Stack
    decreases |ops|
  {
    if ops == [] then s else RunOps(Apply(s, ops[0]), ops[1..])
  }

  /** Every push carries a stamp at least as new as the head it lands on. */
  predicate Timely(s: Stack, ops: seq<Op>)
    decreases |ops|
  {
    ops == [] ||
    (&& (ops[0].PushOp? && s != [] ==> ops[0].entry.lastUsed >= s[0].lastUsed)
     && Timely(Apply(s, ops[0]), ops[1..]))
  }

  /** Every stack along a history is sorted. */
  predicate AlwaysSorted(s: Stack, ops: seq<Op>)
    decreases |ops|
  {
    Sorted(s) && (ops == [] || AlwaysSorted(Apply(s, ops[0]), ops[1..]))
  }

  lemma ApplySortedIff(s: Stack, op: Op)
    requires Sorted(s)
    ensures Sorted(Apply(s, op)) <==> (op.PushOp? && s != [] ==> op.entry.lastUsed >= s[0].lastUsed)
  {
    if op.PushOp? && s != [] {
      var t := Push(s, op.entry);
      assert t[0] == op.entry && t[1] == s[0];
      if op.entry.lastUsed >= s[0].lastUsed {
        forall i, j | 0 <= i < j < |t| ensures t[i].lastUsed >= t[j].lastUsed {
          assert t[j] == s[j - 1];
          assert i > 0 ==> t[i] == s[i - 1];
        }
      }
    }
  }

  /**
   From a sorted stack, gets, returns, drains and expiries keep the stack
   sorted throughout if and only if no return is stamped older than the head
   it is pushed on.
   */
  lemma {:induction false} SortedThroughoutIff(s: Stack, ops: seq<Op>)
    requires Sorted(s)
    ensures AlwaysSorted(s, ops) <==> Timely(s, ops)
    decreases |ops|
  {
    if ops != [] {
      ApplySortedIff(s, ops[0]);
      if Sorted(Apply(s, ops[0])) {
        SortedThroughoutIff(Apply(s, ops[0]), ops[1..]);
      }
    }
  }

  /** In such a history every expiry is the plain filter. */
  lemma {:induction false} TimelyExpiryIsFilter(s: Stack, ops: seq<Op>, cutoff: int)
    requires Sorted(s) && Timely(s, ops)
    ensures Sorted(RunOps(s, ops))
    ensures Kept(RunOps(s, ops), cutoff) == Fresh(RunOps(s, ops), cutoff)
    decreases |ops|
  {
    if ops == [] {
      SortedIsSeparated(s, cutoff);
      TailScanIsFilterIff(s, cutoff);
    } else {
      ApplySortedIff(s, ops[0]);
      TimelyExpiryIsFilter(Apply(s, ops[0]), ops[1..], cutoff);
    }
  }
}
