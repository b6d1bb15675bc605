/**
 What a download leaves in a file (src/file_download.c).  An open file is kept
 for the next replica, and a destination path is opened again without
 truncation, so tries that were not accepted can show.
 */
module SinkFile {
  import opened Common
  import opened UrlCodec
  import opened SpillBuffer
  import opened Download

  /** Where try k starts writing in the caller's file: at its position until a replica has sent something. */
  function Start(init: FileState, paths: seq<Replica>, k: nat): nat
    requires k <= |paths|
  {
    if forall j :: 0 <= j < k ==> Brought(paths[j]) == [] then init.pos else 0
  }

  /** All that the first n tries wrote ends within `size`, and so did the file before. */
  predicate EndsWithin(init: FileState, trace: seq<Try>, paths: seq<Replica>, n: nat, size: nat)
    requires n <= |trace| <= |paths|
  {
    && |init.data| <= size
    && forall k :: 0 <= k < n && trace[k].content != [] ==> Start(init, paths, k) + |trace[k].content| <= size
  }

  lemma WriteEndsWithin(data: seq<byte>, pos: nat, bytes: seq<byte>, size: nat)
    ensures |Overwrite(data, pos, bytes)| <= size <==> |data| <= size && (bytes != [] ==> pos + |bytes| <= size)
  {
    if bytes != [] {
      OverwriteLength(data, pos, bytes);
    }
  }

  /** The caller's file after any tries: its position, and how long it is. */
  lemma {:induction false} CallersFile(init: FileState, trace: seq<Try>, paths: seq<Replica>, max: nat, size: nat)
    requires |trace| <= |paths|
    ensures var s := Sink(Open(init), trace, paths, max);
      && s.Open? && s.file.pos == Start(init, paths, |trace|)
      && (|s.file.data| <= size <==> EndsWithin(init, trace, paths, |trace|, size))
    decreases |trace|
  {
    hide Overwrite, Brought;
    if trace != [] {
      var n := |trace| - 1;
      CallersFile(init, trace[..n], paths, max, size);
      var before := Sink(Open(init), trace[..n], paths, max).file;
      WriteEndsWithin(before.data, before.pos, trace[n].content, size);
      assert EndsWithin(init, trace[..n], paths, n, size) <==> EndsWithin(init, trace, paths, n, size);
    }
  }

  /**
   On success the caller's file is exactly the winner's content if and only if
   the winner starts at 0, because the file did or an earlier replica sent
   something and so had it rewound, and nothing written or held before reaches
   beyond the content.  It holds the content from the winner's start in any case.
   */
  lemma CallersFileIsExactIff(init: FileState, trace: seq<Try>, paths: seq<Replica>, max: nat, required: int)
    requires Follows(trace, paths, required, true)
    ensures var n := |trace| - 1; var c, at := trace[n].content, Start(init, paths, n);
      var s := Sink(Open(init), trace, paths, max);
      && s.Open?
      && (c != [] ==> s.file.pos == 0 && at + |c| <= |s.file.data| && s.file.data[at..at + |c|] == c)
      && (s.file.data == c <==> (at == 0 || c == []) && EndsWithin(init, trace, paths, n, |c|))
  {
    hide Overwrite, Concat, Roomy, Start, EndsWithin;
    var n := |trace| - 1;
    var c := trace[n].content;
    assert MatchesReplica(trace[n], paths[n]);
    CallersFile(init, trace[..n], paths, max, |c|);
    WithinFront(init, trace, paths, n, |c|);
    var before := Sink(Open(init), trace[..n], paths, max).file;
    OverwriteIsExactIff(before.data, before.pos, c);
    if c != [] {
      OverwriteHolds(before.data, before.pos, c);
    }
  }

  lemma WithinFront(init: FileState, trace: seq<Try>, paths: seq<Replica>, n: nat, size: nat)
    requires n <= |trace| <= |paths|
    ensures EndsWithin(init, trace[..n], paths, n, size) == EndsWithin(init, trace, paths, n, size)
  {
  }

  /**
   When no replica before the winner sent anything, the bytes in front of the
   caller's position and behind the content are the caller's own.
   */
  lemma FirstToSend(init: FileState, trace: seq<Try>, paths: seq<Replica>, max: nat, required: int)
    requires Follows(trace, paths, required, true)
    requires forall k :: 0 <= k < |trace| - 1 ==> Brought(paths[k]) == []
    ensures var c := trace[|trace| - 1].content;
      Sink(Open(init), trace, paths, max) ==
        Open(FileState(Overwrite(init.data, init.pos, c), if c == [] then init.pos else 0))
  {
    hide Overwrite, Brought, Concat, Roomy;
    var n := |trace| - 1;
    assert forall k :: 0 <= k < |trace| ==> MatchesReplica(trace[k], paths[k]);
    QuietTries(init, trace[..n], paths, max);
  }

  lemma {:induction false} QuietTries(init: FileState, trace: seq<Try>, paths: seq<Replica>, max: nat)
    requires |trace| <= |paths|
    requires forall k :: 0 <= k < |trace| ==> Brought(paths[k]) == [] && MatchesReplica(trace[k], paths[k])
    ensures Sink(Open(init), trace, paths, max) == Open(init)
    decreases |trace|
  {
    hide Overwrite, Brought, Concat, Roomy;
    if trace != [] {
      var n := |trace| - 1;
      QuietTries(init, trace[..n], paths, max);
      assert MatchesReplica(trace[n], paths[n]) && trace[n].content == [];
      OverwriteNothing(init.data, init.pos);
    }
  }

  // --------------------------------------------------------- the spilled file

  /** The reply of try k arrives and passes the memory limit. */
  predicate Spills(trace: seq<Try>, k: nat, max: nat)
    requires k < |trace|
  {
    trace[k].ok && |trace[k].content| > max
  }

  predicate NoneSpillsBefore(trace: seq<Try>, n: nat, max: nat)
    requires n <= |trace|
  {
    forall k :: 0 <= k < n ==> !Spills(trace, k, max)
  }

  /** What the destination path held, and what the failed ones of the first n tries left there, ends within `size`. */
  predicate PathEndsWithin(dest: Option<seq<byte>>, trace: seq<Try>, n: nat, size: nat)
    requires n <= |trace|
  {
    dest.Some? ==>
      && |dest.value| <= size
      && forall k :: 0 <= k < n && !trace[k].ok ==> |trace[k].content| <= size
  }

  lemma FrontIsSame(dest: Option<seq<byte>>, trace: seq<Try>, m: nat, n: nat, max: nat, size: nat)
    requires n <= m <= |trace|
    ensures NoneSpillsBefore(trace[..m], n, max) == NoneSpillsBefore(trace, n, max)
    ensures PathEndsWithin(dest, trace[..m], n, size) == PathEndsWithin(dest, trace, n, size)
  {
    assert forall k :: 0 <= k < n ==> Spills(trace[..m], k, max) == Spills(trace, k, max);
  }

  /** While no answer passes the limit there is no file, and failed transfers have written over what the path held. */
  lemma {:induction false} OnlyThePath(dest: Option<seq<byte>>, trace: seq<Try>, paths: seq<Replica>, max: nat,
                                       size: nat)
    requires |trace| <= |paths| && NoneSpillsBefore(trace, |trace|, max)
    ensures var s := Sink(Pending(dest), trace, paths, max);
      && s.Pending? && (s.dest.Some? <==> dest.Some?)
      && (dest.Some? ==> (|s.dest.value| <= size <==> PathEndsWithin(dest, trace, |trace|, size)))
    decreases |trace|
  {
    hide Overwrite;
    if trace != [] {
      var n := |trace| - 1;
      FrontIsSame(dest, trace, n, n, max, size);
      assert !Spills(trace, n, max);
      OnlyThePath(dest, trace[..n], paths, max, size);
      var before := Sink(Pending(dest), trace[..n], paths, max).dest;
      WriteEndsWithin(HeldBy(before), 0, trace[n].content, size);
      hide NoneSpillsBefore, Sink;
    }
  }

  /** And so do the answers written to the file that try `first` opened. */
  predicate SpillEndsWithin(dest: Option<seq<byte>>, trace: seq<Try>, first: nat, n: nat, size: nat)
    requires first <= n <= |trace|
  {
    PathEndsWithin(dest, trace, first, size) && forall k :: first <= k < n ==> |trace[k].content| <= size
  }

  /** The file opened by the first reply past the limit: rewound, and as long as the longest of what went into it. */
  lemma {:induction false} SpilledFile(dest: Option<seq<byte>>, trace: seq<Try>, paths: seq<Replica>, max: nat,
                                       first: nat, size: nat)
    requires first < |trace| <= |paths| && Spills(trace, first, max) && NoneSpillsBefore(trace, first, max)
    ensures var s := Sink(Pending(dest), trace, paths, max);
      && s.Open? && s.file.pos == 0
      && (|s.file.data| <= size <==> SpillEndsWithin(dest, trace, first, |trace|, size))
      && trace[|trace| - 1].content <= s.file.data
    decreases |trace|
  {
    hide Overwrite, Brought, PathEndsWithin, NoneSpillsBefore;
    var n := |trace| - 1;
    var front, c := trace[..n], trace[n].content;
    FrontIsSame(dest, trace, n, first, max, size);
    if first == n {
      OnlyThePath(dest, front, paths, max, size);
      var before := HeldBy(Sink(Pending(dest), front, paths, max).dest);
      WriteEndsWithin(before, 0, c, size);
      OverwriteFromStart(before, c);
      NothingWithin(dest, trace, n, size);
    } else {
      assert Spills(front, first, max);
      SpilledFile(dest, front, paths, max, first, size);
      var before := Sink(Pending(dest), front, paths, max).file;
      WriteEndsWithin(before.data, before.pos, c, size);
      OverwriteFromStart(before.data, c);
      assert forall k :: first <= k < n ==> front[k] == trace[k];
    }
  }

  lemma NothingWithin(dest: Option<seq<byte>>, trace: seq<Try>, n: nat, size: nat)
    requires n <= |trace|
    ensures dest.None? ==> PathEndsWithin(dest, trace, n, size)
  {
  }

  /** Without a sink of the caller's, there is a file if and only if some answer arrived and passed the memory limit. */
  lemma FileIffSpills(dest: Option<seq<byte>>, trace: seq<Try>, paths: seq<Replica>, max: nat)
    requires |trace| <= |paths|
    ensures Sink(Pending(dest), trace, paths, max).Open? <==> exists k :: 0 <= k < |trace| && Spills(trace, k, max)
  {
    hide Sink, Spills;
    if NoneSpillsBefore(trace, |trace|, max) {
      OnlyThePath(dest, trace, paths, max, 0);
    } else {
      var first := FirstSpill(trace, |trace|, max);
      SpilledFile(dest, trace, paths, max, first, 0);
    }
  }

  lemma {:induction false} FirstSpill(trace: seq<Try>, n: nat, max: nat) returns (first: nat)
    requires n <= |trace| && !NoneSpillsBefore(trace, n, max)
    ensures first < n && Spills(trace, first, max) && NoneSpillsBefore(trace, first, max)
    decreases n
  {
    hide Spills;
    if NoneSpillsBefore(trace, n - 1, max) {
      return n - 1;
    }
    first := FirstSpill(trace, n - 1, max);
  }

  /**
   On success the spilled file starts with the winner's content.  It is exactly
   that if and only if nothing is longer: what the destination path held, what
   transfers that failed before the file was opened had left there, and the
   answers written to the file since.
   */
  lemma SpilledFileIsExactIff(dest: Option<seq<byte>>, trace: seq<Try>, paths: seq<Replica>, max: nat, required: int,
                              first: nat)
    requires Follows(trace, paths, required, true) && first < |trace|
    requires Spills(trace, first, max) && NoneSpillsBefore(trace, first, max)
    ensures var n := |trace| - 1; var c := trace[n].content; var s := Sink(Pending(dest), trace, paths, max);
      && s.Open? && s.file.pos == 0 && c <= s.file.data
      && (s.file.data == c <==> SpillEndsWithin(dest, trace, first, n, |c|))
  {
    hide Sink, Spills, NoneSpillsBefore, PathEndsWithin, MatchesReplica;
    SpilledFile(dest, trace, paths, max, first, |trace[|trace| - 1].content|);
    var s := Sink(Pending(dest), trace, paths, max);
    assert s.file.data == trace[|trace| - 1].content <==> |s.file.data| <= |trace[|trace| - 1].content|;
  }

  lemma SinkOfTwo(init: SinkState, t: Try, u: Try, paths: seq<Replica>, max: nat)
    requires |paths| == 2
    ensures Sink(init, [t], paths, max) == SinkStep(init, t, paths[0], max)
    ensures Sink(init, [t, u], paths, max) == SinkStep(SinkStep(init, t, paths[0], max), u, paths[1], max)
  {
    hide Sink, SinkStep;
    NothingSunk(init, paths, max, false);
    assert [] + [t] == [t];
    SinkSnoc(init, [], t, paths, max);
    assert [t] + [u] == [t, u];
    SinkSnoc(init, [t], u, paths, max);
  }

  lemma FromStartTwice(x: seq<byte>, c: seq<byte>)
    requires |x| > |c|
    ensures Overwrite([], 0, x) == x && Overwrite(x, 0, c) == c + x[|c|..]
  {
    OverwriteFromStart([], x);
    OverwriteFromStart(x, c);
    assert x + [] == x;
  }

  /**
   A longer answer shows: refused for its length but spilled already, its last
   bytes stay behind the accepted answer.
   */
  lemma LongerAnswerShows(p: seq<Piece>, q: seq<Piece>, max: nat)
    requires |Concat(p)| > |Concat(q)| && |Concat(p)| > max
    ensures var paths := [Transfer(p, true), Transfer(q, true)];
      var trace := [Try(true, Concat(p)), Try(true, Concat(q))];
      && Follows(trace, paths, |Concat(q)|, true)
      && Sink(Pending(None), trace, paths, max) == Open(FileState(Concat(q) + Concat(p)[|Concat(q)|..], 0))
  {
    hide Overwrite, Concat, Roomy, Sink;
    var paths, x, c := [Transfer(p, true), Transfer(q, true)], Concat(p), Concat(q);
    SinkOfTwo(Pending(None), Try(true, x), Try(true, c), paths, max);
    FromStartTwice(x, c);
  }

  // ------------------------------------------------ a failed transfer shows

  /** Two replicas: the first breaks off after sending everything, the second completes. */
  function BreaksOff(p: seq<Piece>, q: seq<Piece>): (paths: seq<Replica>)
    ensures |paths| == 2
  {
    [Transfer(p, false), Transfer(q, true)]
  }

  lemma BreaksOffTries(p: seq<Piece>, q: seq<Piece>, max: nat)
    requires Roomy(p) && Roomy(q) && |Concat(p)| > |Concat(q)| > max
    ensures TryOf(BreaksOff(p, q)[0], max, ToBytes) == Try(false, Concat(p))
    ensures TryOf(BreaksOff(p, q)[1], max, ToBytes) == Try(true, Concat(q))
  {
    hide Concat, Roomy, AllTaken, Written;
    RoomyIsTaken(p, max, ToBytes);
    RoomyIsTaken(q, max, ToBytes);
    WrittenIsPrefix(p, max, ToBytes);
  }

  lemma BreaksOffSink(x: seq<byte>, c: seq<byte>, paths: seq<Replica>, max: nat)
    requires |paths| == 2 && |x| > |c| > max
    ensures Sink(Pending(Some([])), [Try(false, x)], paths, max) == Pending(Some(x))
    ensures Sink(Pending(Some([])), [Try(false, x), Try(true, c)], paths, max) == Open(FileState(c + x[|c|..], 0))
  {
    hide Overwrite, Sink;
    SinkOfTwo(Pending(Some([])), Try(false, x), Try(true, c), paths, max);
    FromStartTwice(x, c);
  }

  /** Only these tries can come of it. */
  lemma BreaksOffTrace(p: seq<Piece>, q: seq<Piece>, max: nat, trace: seq<Try>, ok: bool)
    requires Roomy(p) && Roomy(q) && |Concat(p)| > |Concat(q)| > max
    requires Follows(trace, BreaksOff(p, q), -1, ok)
    requires Determined(trace, BreaksOff(p, q), max, false, Pending(Some([])))
    ensures ok && trace == [Try(false, Concat(p)), Try(true, Concat(q))]
  {
    hide Concat, Roomy, Sink, TryOf, MatchesReplica, BreaksOff;
    var paths, init := BreaksOff(p, q), Pending(Some([]));
    BreaksOffTries(p, q, max);
    NothingSunk(init, paths, max, false);
    assert trace != [] && trace[..0] == [];
    assert trace[0] == TryOf(paths[0], max, KindOf(false, Sink(init, trace[..0], paths, max)));
    assert |trace| == 2 && trace[..1] == [trace[0]];
    BreaksOffSink(Concat(p), Concat(q), paths, max);
    assert trace[1] == TryOf(paths[1], max, KindOf(false, Sink(init, trace[..1], paths, max)));
  }

  /**
   A failed transfer shows: it had spilled to the destination path, which was
   empty, and the file handed back for the next replica's shorter answer still
   ends with its last bytes.
   */
  method GetAfterBrokenSpill(p: seq<Piece>, q: seq<Piece>, max: nat) returns (ok: bool, file: File?)
    requires Roomy(p) && Roomy(q) && |Concat(p)| > |Concat(q)| > max
    ensures ok && file != null && file.pos == 0 && file.data == Concat(q) + Concat(p)[|Concat(q)|..]
  {
    hide *;
    var total, bytes, dest;
    ghost var trace, added;
    var paths := BreaksOff(p, q);
    ok, total, bytes, file, dest, trace, added := FileSystemGet(max, paths, -1, null, null, Some([]));
    BreaksOffStates(p, q, max, trace, ok, file, dest);
  }

  lemma BreaksOffStates(p: seq<Piece>, q: seq<Piece>, max: nat, trace: seq<Try>, ok: bool, file: File?,
                        dest: Option<seq<byte>>)
    requires Roomy(p) && Roomy(q) && |Concat(p)| > |Concat(q)| > max
    requires Follows(trace, BreaksOff(p, q), -1, ok)
    requires Determined(trace, BreaksOff(p, q), max, false, StateOf(null, Some([])))
    requires StateOf(file, dest) == Sink(StateOf(null, Some([])), trace, BreaksOff(p, q), max)
    ensures ok && file != null && file.pos == 0 && file.data == Concat(q) + Concat(p)[|Concat(q)|..]
  {
    hide Concat, Roomy, Sink, Follows, Determined, BreaksOff;
    BreaksOffTrace(p, q, max, trace, ok);
    BreaksOffSink(Concat(p), Concat(q), BreaksOff(p, q), max);
  }
}
