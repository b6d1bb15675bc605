/**
 The APR ring behind one tracker's connection stack (src/pool.c): cells linked
 both ways through a sentinel.  Every method is proved to carry out its
 StackSpec operation and to leave a well-formed ring.
 */
module ConnectionRing {
  import opened Common
  import opened StackSpec

  class Cell {
    const id: nat
    var lastUsed: int
    var next: Cell?
    var prev: Cell?

    constructor (id: nat)
      ensures this.id == id
    {
      this.id, lastUsed, next, prev := id, 0, null, null;
    }
  }

  lemma CutIsDistinct(cells: seq<Cell>, i: nat, j: nat)
    requires Distinct(cells) && i <= j < |cells|
    ensures Distinct(cells[..i] + cells[j + 1..])
  {
  }

  lemma TailNeighbours(all: seq<Cell>, k: nat)
    requires Distinct(all) && k + 1 < |all|
    ensures var tail := all[k + 1..];
      && Distinct(tail) && tail[|tail| - 1] == all[|all| - 1]
      && forall m :: 0 <= m < |tail| ==> tail[m] == all[k + 1 + m] && (m + 1 < |tail| ==> tail[m] != all[|all| - 1])
  {
  }

  /** Where a cell and its neighbours stood before a run was cut out. */
  lemma CutNeighbours(all: seq<Cell>, i: nat, j: nat, m: nat)
    requires 1 <= i <= j < |all| && m < |all| - (j + 1 - i)
    ensures var cut, gap := all[..i] + all[j + 1..], j + 1 - i;
      && cut[m] == all[if m < i then m else m + gap]
      && (m + 1 < |cut| ==> cut[m + 1] == all[if m + 1 < i then m + 1 else m + 1 + gap])
      && (m > 0 ==> cut[m - 1] == all[if m - 1 < i then m - 1 else m - 1 + gap])
      && cut[|cut| - 1] == all[if j + 1 < |all| then |all| - 1 else i - 1]
  {
  }

  /** The stack entries a run of cells holds. */
  ghost function Entries(cells: seq<Cell>): (s: Stack)
    reads cells
    ensures |s| == |cells|
    ensures forall i :: 0 <= i < |s| ==> s[i] == Entry(cells[i].id, cells[i].lastUsed)
  {
    seq(|cells|, i requires 0 <= i < |cells| reads cells => Entry(cells[i].id, cells[i].lastUsed))
  }

  /** A NULL-terminated chain through `next`, as expiry hands it over. */
  ghost predicate Chain(first: Cell?, cells: seq<Cell>)
    reads cells
  {
    && Distinct(cells)
    && first == (if cells == [] then null else cells[0])
    && forall i {:trigger cells[i].next} :: 0 <= i < |cells| ==>
         cells[i].next == if i + 1 < |cells| then cells[i + 1] else null
  }

  class Ring {
    const sentinel: Cell
    var connectionCount: int
    /** The sentinel followed by the entries from head to tail. */
    ghost var loop: seq<Cell>
    ghost var expired: nat

    ghost predicate Linked()
      reads this`loop, loop
    {
      && loop != [] && loop[0] == sentinel && Distinct(loop)
      && (forall i {:trigger loop[i].next} :: 0 <= i < |loop| ==>
            loop[i].next == if i + 1 < |loop| then loop[i + 1] else sentinel)
      && (forall i {:trigger loop[i].prev} :: 0 <= i < |loop| ==>
            loop[i].prev == if i > 0 then loop[i - 1] else loop[|loop| - 1])
    }

    /** Expiry does not lower the count, so it runs ahead by what has been expired. */
    ghost predicate Valid()
      reads this, loop
    {
      Linked() && connectionCount == |loop| - 1 + expired
    }

    ghost function Contents(): Stack
      requires loop != []
      reads this`loop, loop
    {
      Entries(loop[1..])
    }

    constructor ()
      ensures Valid() && Contents() == [] && expired == 0
      ensures fresh(loop)
    {
      var c := new Cell(0);
      sentinel, connectionCount := c, 0;
      new;
      c.next, c.prev := c, c;
      loop, expired := [c], 0;
    }

    /** Links two cells of the ring to each other. */
    method Join(before: Cell, after: Cell, ghost b: nat, ghost a: nat)
      requires Distinct(loop) && b < |loop| && a < |loop| && before == loop[b] && after == loop[a]
      modifies before`next, after`prev
      ensures forall m {:trigger loop[m].next} :: 0 <= m < |loop| ==>
        loop[m].next == if m == b then after else old(loop[m].next)
      ensures forall m {:trigger loop[m].prev} :: 0 <= m < |loop| ==>
        loop[m].prev == if m == a then before else old(loop[m].prev)
    {
      before.next := after;
      after.prev := before;
    }

    /** APR_RING_UNSPLICE: cuts the run from `first` to `last` out of the ring. */
    method Unsplice(first: Cell, last: Cell, ghost i: nat, ghost j: nat)
      requires Linked() && 1 <= i <= j < |loop| && first == loop[i] && last == loop[j]
      modifies this`loop, loop
      ensures Linked() && loop == old(loop[..i]) + old(loop[j + 1..])
      ensures forall m :: 0 <= m < |old(loop)| ==> old(loop)[m].lastUsed == old(loop[m].lastUsed)
      ensures forall k :: i <= k <= j ==> old(loop)[k].next == old(loop[k].next)
    {
      assert loop[i].prev == loop[i - 1];
      assert loop[j].next == if j + 1 < |loop| then loop[j + 1] else sentinel;
      var before, after := first.prev, last.next;
      assert before == loop[i - 1] && after == if j + 1 < |loop| then loop[j + 1] else loop[0];
      ghost var all, gap := loop, j + 1 - i;
      Join(before, after, i - 1, if j + 1 < |all| then j + 1 else 0);
      CutIsDistinct(all, i, j);
      loop := all[..i] + all[j + 1..];
      forall m | 0 <= m < |loop|
        ensures loop[m].next == if m + 1 < |loop| then loop[m + 1] else sentinel
        ensures loop[m].prev == if m > 0 then loop[m - 1] else loop[|loop| - 1]
      {
        CutNeighbours(all, i, j, m);
      }
    }

    /** APR_RING_INSERT_HEAD. */
    method InsertHead(e: Cell)
      requires Linked() && e !in loop
      modifies this`loop, loop, e
      ensures Linked() && loop == [old(loop)[0], e] + old(loop)[1..]
      ensures e.lastUsed == old(e.lastUsed)
      ensures forall m :: 0 <= m < |old(loop)| ==> old(loop)[m].lastUsed == old(loop[m].lastUsed)
    {
      assert loop[0].next == if 1 < |loop| then loop[1] else sentinel;
      e.next := sentinel.next;
      e.prev := sentinel;
      sentinel.next.prev := e;
      sentinel.next := e;
      loop := [loop[0], e] + loop[1..];
    }

    /** The locked section of mfs_pool_get_connection_ex. */
    method Get() returns (e: Cell?)
      requires Valid()
      modifies this, loop
      ensures Valid() && expired == old(expired)
      ensures Contents() == Pop(old(Contents()))
      ensures e == null <==> old(Contents()) == []
      ensures e != null ==> e == old(loop)[1] && e !in loop && Entry(e.id, e.lastUsed) == old(Contents())[0]
    {
      if sentinel.next == sentinel {
        assert loop[0].next == sentinel;
        e := null;
      } else {
        e := sentinel.next;
        Unsplice(e, e, 1, 1);
        connectionCount := connectionCount - 1;
      }
    }

    /** mfs_pool_return_connection, stamped at `now`. */
    method Return(e: Cell, now: int)
      requires Valid() && e !in loop
      modifies this, loop, e
      ensures Valid() && expired == old(expired)
      ensures Contents() == Push(old(Contents()), Entry(e.id, now))
      ensures loop == [old(loop[0]), e] + old(loop[1..])
    {
      e.lastUsed := now;
      InsertHead(e);
      connectionCount := connectionCount + 1;
    }

    /** The scan from the tail: `lastEntry` is the newest expired cell, or null when there is none. */
    method ScanTail(cutoff: int) returns (lastEntry: Cell?, ghost k: nat)
      requires Valid()
      ensures k == TailStart(Contents(), cutoff)
      ensures lastEntry == var cut := TailStart(Contents(), cutoff); if cut + 1 < |loop| then loop[cut + 1] else null
    {
      ghost var s := Contents();
      var entry := sentinel.prev;
      assert entry == loop[0].prev;
      lastEntry := null;
      k := |loop| - 1;
      while entry != sentinel && entry.lastUsed < cutoff
        invariant 0 <= k < |loop| && entry == loop[k]
        invariant lastEntry == if k + 1 < |loop| then loop[k + 1] else null
        invariant forall i :: k <= i < |s| ==> s[i].lastUsed < cutoff
        decreases k
      {
        assert s[k - 1].lastUsed == loop[k].lastUsed;
        lastEntry := entry;
        entry := entry.prev;
        k := k - 1;
      }
      assert k > 0 ==> s[k - 1].lastUsed == loop[k].lastUsed;
      TailStartUnique(s, cutoff, k);
    }

    /** Cuts the ring off from `first` to its tail and ends the cut chain with NULL. */
    method CutTail(first: Cell, ghost k: nat) returns (ghost chain: seq<Cell>)
      requires Linked() && k + 1 < |loop| && first == loop[k + 1]
      modifies this`loop, loop
      ensures Linked() && loop == old(loop)[..k + 1] && chain == old(loop)[k + 1..]
      ensures Chain(first, chain)
      ensures forall m :: 0 <= m < |old(loop)| ==> old(loop)[m].lastUsed == old(loop[m].lastUsed)
    {
      ghost var last := |loop| - 1;
      chain := loop[k + 1..];
      var entry := sentinel.prev;
      assert entry == loop[0].prev == loop[last];
      ghost var all := loop;
      Unsplice(first, entry, k + 1, last);
      entry.next := null;
      assert loop == all[..k + 1];
      TailNeighbours(all, k);
      forall m | 0 <= m < |chain| ensures chain[m].next == if m + 1 < |chain| then chain[m + 1] else null {
        assert m + 1 < |chain| ==> old(all[k + 1 + m].next) == all[k + 1 + m + 1];
      }
    }

    /** CutTail as an operation on the contents. */
    method DetachTail(first: Cell, ghost k: nat) returns (ghost chain: seq<Cell>)
      requires Linked() && k + 1 < |loop| && first == loop[k + 1]
      modifies this`loop, loop
      ensures Linked() && Chain(first, chain) && old(loop) == loop + chain
      ensures Contents() == old(Contents())[..k] && Entries(chain) == old(Contents())[k..]
    {
      hide Chain, Distinct, Entries;
      ghost var all := loop;
      chain := CutTail(first, k);
      EntriesKept(all);
      EntriesSlice(all, k);
    }

    /**
     mfs_pool_get_expired_trackers: detaches exactly the longest expired tail as
     a NULL-terminated chain, newest first.  The count is not touched.
     */
    method GetExpired(cutoff: int) returns (lastEntry: Cell?, ghost chain: seq<Cell>)
      requires Valid()
      modifies this, loop
      ensures Valid() && connectionCount == old(connectionCount)
      ensures expired == old(expired) + |chain|
      ensures Contents() == Kept(old(Contents()), cutoff)
      ensures Entries(chain) == Expired(old(Contents()), cutoff)
      ensures Chain(lastEntry, chain) && old(loop) == loop + chain
    {
      hide TailStart, Entries, Chain;
      ghost var k;
      ghost var s := Contents();
      lastEntry, k := ScanTail(cutoff);
      if lastEntry != null {
        chain := DetachTail(lastEntry, k);
        expired := expired + |chain|;
      } else {
        chain := [];
        NothingDetached(s, k);
      }
    }
  }

  /** Relinking leaves the entries of a run of cells alone. */
  twostate lemma EntriesKept(all: seq<Cell>)
    requires all != [] && forall m :: 0 <= m < |all| ==> all[m].lastUsed == old(all[m].lastUsed)
    ensures Entries(all[1..]) == old(Entries(all[1..]))
  {
    forall i | 0 <= i < |all| - 1 ensures all[1..][i].lastUsed == old(all[1..][i].lastUsed) {
      assert all[1..][i] == all[i + 1];
    }
  }

  lemma EntriesSlice(all: seq<Cell>, k: nat)
    requires k + 1 < |all|
    ensures Entries(all[..k + 1][1..]) == Entries(all[1..])[..k]
    ensures Entries(all[k + 1..]) == Entries(all[1..])[k..]
  {
    assert all[..k + 1][1..] == all[1..][..k];
    assert all[k + 1..] == all[1..][k..];
  }

  lemma NothingDetached(s: Stack, k: nat)
    requires k == |s|
    ensures s[..k] == s && s[k..] == Entries([]) && Chain(null, [])
  {
  }

  // ------------------------------------------------- destroying the chain

  /** Memory still allocated: reading or destroying a cell needs it to be live. */
  class Arena {
    ghost var live: set<Cell>
    ghost var destroyed: seq<Cell>

    constructor ()
      ensures live == {} && destroyed == []
    {
      live, destroyed := {}, [];
    }

    method ReadNext(c: Cell) returns (n: Cell?)
      requires c in live
      ensures n == c.next
    {
      n := c.next;
    }

    /** mfs_pool_destroy_connection: the cell goes with its pool, and its fields hold `junk` afterwards. */
    method Destroy(c: Cell, junk: Cell?)
      requires c in live
      modifies this, c
      ensures live == old(live) - {c} && destroyed == old(destroyed) + [c]
    {
      c.next := junk;
      live, destroyed := live - {c}, destroyed + [c];
    }

    /** The destroy loop of expiry: every cell of the chain once, in order, and none read after. */
    method DestroyChain(first: Cell?, ghost chain: seq<Cell>, junk: Cell?)
      requires Chain(first, chain) && forall i :: 0 <= i < |chain| ==> chain[i] in live
      modifies this, chain
      ensures destroyed == old(destroyed) + chain
      ensures live == old(live) - set c | c in chain
    {
      var lastEntry := first;
      ghost var i := 0;
      while lastEntry != null
        invariant 0 <= i <= |chain|
        invariant lastEntry == if i < |chain| then chain[i] else null
        invariant forall j {:trigger chain[j].next} :: i <= j < |chain| ==>
          chain[j].next == if j + 1 < |chain| then chain[j + 1] else null
        invariant destroyed == old(destroyed) + chain[..i]
        invariant live == old(live) - set c | c in chain[..i]
        decreases |chain| - i
      {
        var toDelete := lastEntry;
        assert toDelete !in chain[..i];
        lastEntry := ReadNext(lastEntry);
        Destroy(toDelete, junk);
        assert chain[..i + 1] == chain[..i] + [toDelete];
        i := i + 1;
      }
      assert chain[..i] == chain;
    }
  }

  /**
   One tracker's turn in mfs_pool_expire_active_trackers: the ring keeps what is
   fresh, every detached cell is destroyed once, and no cell of the ring is.
   */
  method ExpireRing(ring: Ring, arena: Arena, cutoff: int, junk: Cell?) returns (ghost chain: seq<Cell>)
    requires ring.Valid() && forall i :: 0 <= i < |ring.loop| ==> ring.loop[i] in arena.live
    modifies ring, ring.loop, arena
    ensures ring.Valid() && ring.Contents() == Kept(old(ring.Contents()), cutoff)
    ensures old(ring.loop) == ring.loop + chain && arena.destroyed == old(arena.destroyed) + chain
    ensures forall i :: 0 <= i < |ring.loop| ==> ring.loop[i] in arena.live
  {
    hide TailStart, Entries;
    ghost var all := ring.loop;
    var first;
    first, chain := ring.GetExpired(cutoff);
    assert forall i :: 0 <= i < |chain| ==> chain[i] == all[|ring.loop| + i];
    assert forall i :: 0 <= i < |ring.loop| ==> ring.loop[i] == all[i];
    assert forall i, j :: 0 <= i < |ring.loop| && 0 <= j < |chain| ==> ring.loop[i] != chain[j];
    arena.DestroyChain(first, chain, junk);
  }

  /** The count is the ring's size if and only if nothing has expired yet, and too high by what has. */
  lemma CountIsExactIff(ring: Ring)
    requires ring.Valid()
    ensures ring.connectionCount == |ring.Contents()| <==> ring.expired == 0
    ensures ring.connectionCount == |ring.Contents()| + ring.expired
  {
  }

  /** One connection put back and expired: the ring is empty and the count is 1. */
  method CountAfterExpiry() returns (ring: Ring)
    ensures fresh(ring) && ring.Valid() && ring.Contents() == [] && ring.connectionCount == 1
  {
    hide TailStart, Entries;
    ring := new Ring();
    var e := new Cell(7);
    ring.Return(e, 0);
    ghost var s := ring.Contents();
    OneExpires();
    var first;
    ghost var chain;
    first, chain := ring.GetExpired(1);
    assert |Entries(chain)| == 1;
    CountIsExactIff(ring);
  }

  lemma OneExpires()
    ensures var s := Push([], Entry(7, 0)); Kept(s, 1) == [] && |Expired(s, 1)| == 1
  {
    var s := Push([], Entry(7, 0));
    assert s[..0] == [];
    assert TailStart(s, 1) == 0;
  }

  /** What is kept and what has expired make up the stack, and a second scan finds nothing more. */
  lemma {:induction false} ExpirySplits(s: Stack, cutoff: int)
    ensures Kept(s, cutoff) + Expired(s, cutoff) == s
    ensures Expired(Kept(s, cutoff), cutoff) == []
  {
    var k := TailStart(s, cutoff);
    TailStartIsLongest(s, cutoff);
    TailStartUnique(s[..k], cutoff, k);
  }
}
