/**
 One download and the failover over replicas (src/file_download.c).  cURL's
 part is what arrives, how the disk behaves at each callback, and whether the
 transfer completes; all of it is arbitrary.
 */
module Download {
  import opened Common
  import opened UrlCodec
  import opened SpillBuffer

  datatype Piece = Piece(bytes: seq<byte>, disk: Disk)

  /** A replica path: unusable before any transfer, or a transfer. */
  datatype Replica =
    | Unusable
    | Transfer(pieces: seq<Piece>, completes: bool)

  function Concat(pieces: seq<Piece>): seq<byte> {
    if pieces == [] then [] else Concat(pieces[..|pieces| - 1]) + pieces[|pieces| - 1].bytes
  }

  /** The disk can take all of the transfer at every callback. */
  predicate Roomy(pieces: seq<Piece>) {
    forall i :: 0 <= i < |pieces| ==> pieces[i].disk.opens && |Concat(pieces)| <= pieces[i].disk.room
  }

  /** The callback takes piece i whole, having taken those before. */
  predicate Taken(pieces: seq<Piece>, i: nat, max: nat, kind: Kind)
    requires i < |pieces|
  {
    var before, size, disk := |Concat(pieces[..i])|, |pieces[i].bytes|, pieces[i].disk;
    if kind == ToFile || before > max then size <= disk.room
    else if size + before <= max then true
    else disk.opens && size + (if kind == ToBytes then before else 0) <= disk.room
  }

  /** How many pieces, from the i-th on, are taken until one is not. */
  function FirstRefused(pieces: seq<Piece>, i: nat, max: nat, kind: Kind): (n: nat)
    requires i <= |pieces|
    ensures i <= n <= |pieces|
    ensures forall k :: i <= k < n ==> Taken(pieces, k, max, kind)
    ensures n < |pieces| ==> !Taken(pieces, n, max, kind)
    decreases |pieces| - i
  {
    if i == |pieces| || !Taken(pieces, i, max, kind) then i else FirstRefused(pieces, i + 1, max, kind)
  }

  predicate AllTaken(pieces: seq<Piece>, max: nat, kind: Kind) {
    forall i :: 0 <= i < |pieces| ==> Taken(pieces, i, max, kind)
  }

  /** What a transfer stopped at piece `n` has put into a file, the moved front included. */
  function WrittenAt(pieces: seq<Piece>, n: nat, max: nat, kind: Kind): seq<byte>
    requires n <= |pieces|
  {
    var before := Concat(pieces[..n]);
    var open := kind == ToFile || |before| > max;
    if n == |pieces| then if open then before else []
    else
      var Piece(bytes, disk) := pieces[n];
      if open then before + bytes[..Min(|bytes|, disk.room)]
      else if |bytes| + |before| <= max || !disk.opens then []
      else (before + bytes)[..Min(|before + bytes|, disk.room)]
  }

  /**
   What gets into a file: nothing while memory suffices, then all that is taken,
   and what fits of the piece that is not.
   */
  function Written(pieces: seq<Piece>, max: nat, kind: Kind): seq<byte> {
    WrittenAt(pieces, FirstRefused(pieces, 0, max, kind), max, kind)
  }

  lemma {:induction false} ConcatMonotone(pieces: seq<Piece>, i: nat)
    requires i <= |pieces|
    ensures Concat(pieces[..i]) <= Concat(pieces)
  {
    if i < |pieces| {
      assert pieces[..|pieces| - 1][..i] == pieces[..i];
      ConcatMonotone(pieces[..|pieces| - 1], i);
    } else {
      assert pieces[..i] == pieces;
    }
  }

  lemma ConcatStep(pieces: seq<Piece>, i: nat)
    requires i < |pieces|
    ensures Concat(pieces[..i + 1]) == Concat(pieces[..i]) + pieces[i].bytes
    ensures Concat(pieces[..i + 1]) <= Concat(pieces)
  {
    assert pieces[..i + 1][..i] == pieces[..i];
    ConcatMonotone(pieces, i + 1);
  }

  lemma WrittenIsPrefix(pieces: seq<Piece>, max: nat, kind: Kind)
    ensures Written(pieces, max, kind) <= Concat(pieces)
    ensures AllTaken(pieces, max, kind) ==>
      Written(pieces, max, kind) == if kind == ToFile || |Concat(pieces)| > max then Concat(pieces) else []
  {
    hide Concat;
    var n := FirstRefused(pieces, 0, max, kind);
    if n < |pieces| {
      assert !Taken(pieces, n, max, kind);
      ConcatStep(pieces, n);
      assert Written(pieces, max, kind) <= Concat(pieces[..n + 1]);
    } else {
      assert pieces[..n] == pieces;
    }
  }

  lemma StopsAt(pieces: seq<Piece>, i: nat, max: nat, kind: Kind)
    requires i <= |pieces| && forall k :: 0 <= k < i ==> Taken(pieces, k, max, kind)
    requires i < |pieces| ==> !Taken(pieces, i, max, kind)
    ensures Written(pieces, max, kind) == WrittenAt(pieces, i, max, kind)
  {
    hide Taken, WrittenAt;
    assert FirstRefused(pieces, 0, max, kind) == i;
  }

  /** A disk with room for everything takes everything. */
  lemma RoomyIsTaken(pieces: seq<Piece>, max: nat, kind: Kind)
    requires Roomy(pieces)
    ensures AllTaken(pieces, max, kind)
  {
    forall i | 0 <= i < |pieces| ensures Taken(pieces, i, max, kind) {
      ConcatStep(pieces, i);
    }
  }

  lemma ConcatOfNothing()
    ensures Concat([]) == []
  {
  }

  /** curl_easy_perform: hands the pieces to the callback until one is not taken whole. */
  method Perform(w: WriteBuffer, pieces: seq<Piece>, completes: bool) returns (res: bool)
    requires w.Valid() && w.got == []
    modifies w`currentSize, w`fileSize, w`got, w`file, w`inMemory, w`inFile, w.brigade, w.file
    ensures res <==> completes && AllTaken(pieces, w.maxBufferSize, w.Destination())
    ensures res ==> w.Valid() && w.got == Concat(pieces)
    ensures !res ==> w.Removable()
    ensures w.file != old(w.file) ==> old(w.file) == null && fresh(w.file)
    ensures w.FileHolds()
    ensures w.dontWantBrigade ==> w.inFile == Written(pieces, w.maxBufferSize, w.Destination())
    ensures w.callersFile ==> w.file == old(w.file) && (w.currentSize > 0 <==> Concat(pieces) != [])
    ensures w.callersFile && w.currentSize == 0 ==> w.file.pos == old(w.file.pos)
  {
    hide Concat, Taken, Written, WrittenAt, Overwrite;
    ghost var max, kind := w.maxBufferSize, w.Destination();
    var i := 0;
    assert pieces[..0] == [];
    ConcatOfNothing();
    while i < |pieces|
      invariant 0 <= i <= |pieces| && w.Valid() && w.got == Concat(pieces[..i])
      invariant w.file != old(w.file) ==> old(w.file) == null && fresh(w.file)
      invariant w.callersFile ==> w.file == old(w.file)
      invariant forall k :: 0 <= k < i ==> Taken(pieces, k, max, kind)
    {
      ConcatStep(pieces, i);
      TakesNext(w, pieces, i);
      var taken := w.Receive(pieces[i].bytes, pieces[i].disk);
      if taken != |pieces[i].bytes| {
        StopsAt(pieces, i, max, kind);
        return false;
      }
      i := i + 1;
    }
    assert pieces[..i] == pieces;
    StopsAt(pieces, i, max, kind);
    AllWritten(w, pieces);
    res := completes;
    if !res {
      ValidIsRemovable(w);
    }
  }

  lemma TakesNext(w: WriteBuffer, pieces: seq<Piece>, i: nat)
    requires w.Valid() && i < |pieces| && w.got == Concat(pieces[..i])
    ensures w.Takes(pieces[i].bytes, pieces[i].disk) <==> Taken(pieces, i, w.maxBufferSize, w.Destination())
    ensures w.dontWantBrigade ==>
      w.Writes(pieces[i].bytes, pieces[i].disk) == WrittenAt(pieces, i, w.maxBufferSize, w.Destination())
  {
    hide Concat, Overwrite;
    assert w.got[0..] == w.got;
  }

  lemma AllWritten(w: WriteBuffer, pieces: seq<Piece>)
    requires w.Valid() && w.got == Concat(pieces)
    ensures w.dontWantBrigade ==> w.inFile == WrittenAt(pieces, |pieces|, w.maxBufferSize, w.Destination())
  {
    hide Concat, Overwrite;
    assert w.got[0..] == w.got && pieces[..|pieces|] == pieces;
  }

  lemma ValidIsRemovable(w: WriteBuffer)
    requires w.Valid()
    ensures w.Removable()
  {
  }

  // -------------------------------------------------- the three output modes

  /** A replica's transfer succeeds: it completes, and every piece is taken. */
  predicate Arrives(r: Replica, max: nat, kind: Kind) {
    r.Transfer? && r.completes && AllTaken(r.pieces, max, kind)
  }

  /** What a replica sends. */
  function Brought(r: Replica): seq<byte> {
    if r.Transfer? then Concat(r.pieces) else []
  }

  /**
   The caller's own file: what arrived is written over it from its position on,
   and it is rewound if and only if the replica sent anything.
   */
  method GetIntoFile(max: nat, r: Replica, file: File) returns (ok: bool, total: nat, ghost wrote: seq<byte>)
    modifies file
    ensures ok <==> Arrives(r, max, ToFile)
    ensures ok ==> total == |wrote| && wrote == Brought(r)
    ensures wrote == if r.Transfer? then Written(r.pieces, max, ToFile) else []
    ensures file.data == Overwrite(old(file.data), old(file.pos), wrote)
    ensures file.pos == if Brought(r) != [] then 0 else old(file.pos)
  {
    hide Overwrite, Concat, AllTaken, Written;
    ok, total, wrote := false, 0, [];
    OverwriteNothing(file.data, file.pos);
    if r.Unusable? {
      return;
    }
    var w := new WriteBuffer(max, null, true, file, []);
    ok := Perform(w, r.pieces, r.completes);
    wrote := w.inFile;
    if ok {
      total := w.currentSize;
      assert w.got[0..] == w.got;
    }
    if w.currentSize > 0 {
      file.Rewind();
    }
  }

  /** Deletes what the failed attempt appended, bucket by bucket. */
  method DeleteAfter(brigade: Brigade, n: nat)
    requires n <= |brigade.buckets|
    modifies brigade
    ensures brigade.buckets == old(brigade.buckets)[..n]
  {
    while |brigade.buckets| > n
      invariant n <= |brigade.buckets| && brigade.buckets[..n] == old(brigade.buckets)[..n]
      decreases |brigade.buckets|
    {
      brigade.buckets := brigade.buckets[..n] + brigade.buckets[n + 1..];
    }
    assert brigade.buckets[..n] == brigade.buckets;
  }

  /** What a brigade gains: memory buckets within the limit and, past the limit, one bucket for a new file. */
  ghost predicate Gained(added: seq<Bucket>, content: seq<byte>, max: nat)
    reads FilesOf(added)
  {
    && Content(added) == content
    && (if |content| <= max then AllMemory(added)
        else
          && added != [] && AllMemory(added[..|added| - 1]) && added[|added| - 1].FilePart?
          && added[|added| - 1].offset == 0
          && |MemoryBytes(added[..|added| - 1])| <= max)
  }

  /** The caller's brigade: extended on success, put back on failure. */
  method GetIntoBrigade(max: nat, r: Replica, brigade: Brigade) returns (ok: bool, total: nat, ghost added: seq<Bucket>)
    modifies brigade
    ensures brigade.buckets == old(brigade.buckets) + added
    ensures fresh(FilesOf(added))
    ensures ok <==> Arrives(r, max, ToBrigade)
    ensures ok ==> total == |Brought(r)| && Gained(added, Brought(r), max)
    ensures !ok ==> AllMemory(added) && MemoryBytes(added) == []
  {
    hide Overwrite, Concat, AllTaken, Content, Gained, BucketBytes;
    ok, total, added := false, 0, [];
    if r.Unusable? {
      return;
    }
    var n := |brigade.buckets|;
    var w := new WriteBuffer(max, brigade, false, null, []);
    ok := Perform(w, r.pieces, r.completes);
    if !ok && w.currentSize > 0 {
      DeleteAfter(brigade, n);
    } else if ok {
      total := w.currentSize;
      added := brigade.buckets[n..];
      if w.file != null {
        AddFilePart(added, w);
        brigade.buckets := brigade.buckets + [FilePart(w.file, 0, w.fileSize)];
        added := added + [FilePart(w.file, 0, w.fileSize)];
      } else {
        assert w.got[..w.inMemory] == w.got;
        GainedInMemory(added, w.got, max);
      }
    } else {
      added := brigade.buckets[n..];
    }
  }

  lemma GainedInMemory(added: seq<Bucket>, content: seq<byte>, max: nat)
    requires AllMemory(added) && MemoryBytes(added) == content && |content| <= max
    ensures Gained(added, content, max) && FilesOf(added) == {}
  {
    ContentOfMemory(added);
  }

  lemma AddFilePart(front: seq<Bucket>, w: WriteBuffer)
    requires w.Valid() && w.brigade != null && w.file != null && !w.dontWantBrigade
    requires front == w.brigade.buckets[|w.base|..]
    ensures Gained(front + [FilePart(w.file, 0, w.fileSize)], w.got, w.maxBufferSize)
    ensures FilesOf(front + [FilePart(w.file, 0, w.fileSize)]) == {w.file}
  {
    var last := FilePart(w.file, 0, w.fileSize);
    assert BucketBytes(last) == w.inFile && |w.got| > w.maxBufferSize by {
      OverwriteHolds(w.stale, 0, w.inFile);
    }
    assert w.got == w.got[..w.inMemory] + w.inFile;
    assert AllMemory(front) && MemoryBytes(front) == w.got[..w.inMemory];
    hide Overwrite, MemoryBytes, BucketBytes;
    GainedWithFile(front, last, w.got, w.maxBufferSize);
  }

  lemma GainedWithFile(front: seq<Bucket>, last: Bucket, content: seq<byte>, max: nat)
    requires AllMemory(front) && last.FilePart? && last.offset == 0 && MemoryBytes(front) + BucketBytes(last) == content
    requires |MemoryBytes(front)| <= max < |content|
    ensures Gained(front + [last], content, max) && FilesOf(front + [last]) == {last.file}
  {
    hide Content, MemoryBytes, BucketBytes;
    var all := front + [last];
    assert all[..|all| - 1] == front && all[|all| - 1] == last;
    ContentOfMemory(front);
    ContentSnoc(front, last);
  }

  /**
   No sink given: bytes when the reply fits in memory, otherwise a file that
   starts with the content and goes on with what the destination held beyond it.
   `left` is what the destination holds afterwards, a failed transfer included.
   */
  method GetBytesOrFile(max: nat, r: Replica, stale: seq<byte>)
    returns (ok: bool, total: nat, bytes: Option<seq<byte>>, file: File?, left: seq<byte>)
    ensures ok <==> Arrives(r, max, ToBytes)
    ensures ok ==> total == |Concat(r.pieces)|
    ensures ok && total <= max ==> bytes == Some(Concat(r.pieces)) && file == null && left == stale
    ensures ok && total > max ==>
      && bytes == None && file != null && fresh(file) && file.pos == 0 && file.data == left
      && left == Overwrite(stale, 0, Concat(r.pieces))
      && left[..total] == Concat(r.pieces) && left[total..] == stale[Min(total, |stale|)..]
      && (left == Concat(r.pieces) <==> |stale| <= total)
    ensures !ok ==> bytes == None && file == null
    ensures left == Overwrite(stale, 0, if r.Transfer? then Written(r.pieces, max, ToBytes) else [])
  {
    hide Overwrite, Concat, AllTaken, Written;
    OverwriteNothing(stale, 0);
    ok, total, bytes, file, left := false, 0, None, null, stale;
    if r.Unusable? {
      return;
    }
    var brigade := new Brigade();
    var w := new WriteBuffer(max, brigade, true, null, stale);
    ok := Perform(w, r.pieces, r.completes);
    left := if w.file != null then w.file.data else stale;
    if ok {
      total := w.currentSize;
      assert w.got[0..] == w.got;
      if w.file != null {
        if w.currentSize > 0 {
          w.file.Rewind();
        }
        file := w.file;
        OverwriteFromStart(stale, w.got);
      } else {
        assert brigade.buckets[0..] == brigade.buckets && w.got[..w.inMemory] == w.got;
        bytes := Some(MemoryBytes(brigade.buckets));
      }
    }
  }

  // ------------------------------------------------- failover over replicas

  /** One replica tried: whether the transfer succeeded, and what it delivered or, if it failed, left in a file. */
  datatype Try = Try(ok: bool, content: seq<byte>)

  /** The length check that makes mfs_file_system_get return. */
  predicate Accepted(t: Try, required: int) {
    t.ok && (required < 0 || |t.content| == required)
  }

  /** All that successful transfers delivered, in order. */
  function Delivered(trace: seq<Try>): seq<byte> {
    if trace == [] then []
    else
      var last := trace[|trace| - 1];
      Delivered(trace[..|trace| - 1]) + if last.ok then last.content else []
  }

  /** What becomes of a replica, by where its answer goes. */
  function TryOf(r: Replica, max: nat, kind: Kind): Try {
    var ok := Arrives(r, max, kind);
    Try(ok, if ok then Brought(r) else if r.Transfer? && kind != ToBrigade then Written(r.pieces, max, kind) else [])
  }

  predicate MatchesReplica(t: Try, r: Replica) {
    && t.content <= Brought(r)
    && (t.ok ==> r.Transfer? && r.completes && t.content == Brought(r))
    && (r.Transfer? && r.completes && Roomy(r.pieces) ==> t.ok)
  }

  lemma TryMatches(r: Replica, max: nat, kind: Kind)
    ensures MatchesReplica(TryOf(r, max, kind), r)
  {
    hide Roomy, AllTaken, Written, Concat;
    if r.Transfer? {
      WrittenIsPrefix(r.pieces, max, kind);
      if Roomy(r.pieces) {
        RoomyIsTaken(r.pieces, max, kind);
      }
    }
  }

  /** The tries are the replicas in order, up to the first accepted one. */
  predicate Follows(trace: seq<Try>, paths: seq<Replica>, required: int, ok: bool) {
    && |trace| <= |paths|
    && (forall k :: 0 <= k < |trace| ==> MatchesReplica(trace[k], paths[k]))
    && (forall k :: 0 <= k < |trace| - 1 ==> !Accepted(trace[k], required))
    && (if ok then trace != [] && Accepted(trace[|trace| - 1], required)
        else |trace| == |paths| && (trace != [] ==> !Accepted(trace[|trace| - 1], required)))
  }

  twostate lemma {:induction false} ContentKept(bs: seq<Bucket>)
    requires forall i :: 0 <= i < |bs| && bs[i].FilePart? ==> bs[i].file.data == old(bs[i].file.data)
    ensures Content(bs) == old(Content(bs))
  {
    if bs != [] {
      ContentKept(bs[..|bs| - 1]);
    }
  }

  /** What was in the brigade before keeps its contents. */
  method KeepOldContents(max: nat, r: Replica, brigade: Brigade)
    returns (ok: bool, total: nat, ghost added: seq<Bucket>)
    modifies brigade
    ensures brigade.buckets == old(brigade.buckets) + added
    ensures Content(old(brigade.buckets)) == old(Content(brigade.buckets))
    ensures ok <==> Arrives(r, max, ToBrigade)
    ensures ok ==> total == |Brought(r)| && Gained(added, Brought(r), max)
    ensures !ok ==> AllMemory(added) && MemoryBytes(added) == [] && Content(added) == []
  {
    hide MemoryBytes, Arrives, Brought;
    ok, total, added := GetIntoBrigade(max, r, brigade);
    ContentKept(old(brigade.buckets));
    if !ok {
      ContentOfMemory(added);
    }
  }

  /** GetIntoBrigade as a change of the brigade's contents. */
  method ExtendBrigade(max: nat, r: Replica, brigade: Brigade)
    returns (ok: bool, total: nat, ghost t: Try, ghost added: seq<Bucket>)
    modifies brigade
    ensures t == TryOf(r, max, ToBrigade) && ok == t.ok && (ok ==> total == |t.content|)
    ensures brigade.buckets == old(brigade.buckets) + added && (ok ==> Gained(added, t.content, max))
    ensures !ok ==> AllMemory(added) && MemoryBytes(added) == []
    ensures Content(old(brigade.buckets)) == old(Content(brigade.buckets))
    ensures Content(brigade.buckets) == old(Content(brigade.buckets)) + if ok then t.content else []
  {
    hide Content, Brought, Arrives, Gained, MemoryBytes;
    ghost var before := brigade.buckets;
    ok, total, added := KeepOldContents(max, r, brigade);
    GainedIsContent(added, max);
    ContentSplits(before, added);
    t := TryOf(r, max, ToBrigade);
  }

  lemma GainedIsContent(added: seq<Bucket>, max: nat)
    ensures forall content :: Gained(added, content, max) ==> Content(added) == content
  {
  }

  datatype FileState = FileState(data: seq<byte>, pos: nat)

  /**
   Where replies are stored without a brigade: an open file, the caller's or a
   spilled one, or none yet.  Then `dest` is what the destination path holds; it
   is None when spills go to temporary files, each of them new.
   */
  datatype SinkState = Pending(dest: Option<seq<byte>>) | Open(file: FileState)

  ghost function StateOf(file: File?, dest: Option<seq<byte>>): SinkState
    reads file
  {
    if file == null then Pending(dest) else Open(FileState(file.data, file.pos))
  }

  function HeldBy(dest: Option<seq<byte>>): seq<byte> {
    if dest.Some? then dest.value else []
  }

  /**
   What one try makes of it: an open file is written over from its position and
   rewound if anything was sent; a reply past the limit opens one; a failed
   transfer leaves what it spilled at the destination path, for the next to find.
   */
  function SinkStep(s: SinkState, t: Try, r: Replica, max: nat): SinkState {
    match s
    case Open(f) => Open(FileState(Overwrite(f.data, f.pos, t.content), if Brought(r) != [] then 0 else f.pos))
    case Pending(dest) =>
      if t.ok then
        if |t.content| > max then Open(FileState(Overwrite(HeldBy(dest), 0, t.content), 0)) else s
      else
        Pending(if dest.Some? then Some(Overwrite(dest.value, 0, t.content)) else None)
  }

  /** What all tries so far made of it. */
  function Sink(init: SinkState, trace: seq<Try>, paths: seq<Replica>, max: nat): SinkState
    requires |trace| <= |paths|
  {
    if trace == [] then init
    else
      var n := |trace| - 1;
      SinkStep(Sink(init, trace[..n], paths, max), trace[n], paths[n], max)
  }

  /** Where the next answer goes: once there is a file it is used like a caller's. */
  function KindOf(toBrigade: bool, s: SinkState): Kind {
    if toBrigade then ToBrigade else if s.Open? then ToFile else ToBytes
  }

  /** All tries are determined by the replicas, the sink and the limit. */
  predicate Determined(trace: seq<Try>, paths: seq<Replica>, max: nat, toBrigade: bool, init: SinkState)
    requires |trace| <= |paths|
  {
    forall k :: 0 <= k < |trace| ==>
      trace[k] == TryOf(paths[k], max, KindOf(toBrigade, Sink(init, trace[..k], paths, max)))
  }

  lemma DeterminedSnoc(trace: seq<Try>, t: Try, paths: seq<Replica>, max: nat, toBrigade: bool, init: SinkState)
    requires |trace| < |paths| && Determined(trace, paths, max, toBrigade, init)
    requires t == TryOf(paths[|trace|], max, KindOf(toBrigade, Sink(init, trace, paths, max)))
    ensures Determined(trace + [t], paths, max, toBrigade, init)
  {
    hide TryOf, Sink;
    var all := trace + [t];
    forall k | 0 <= k < |all|
      ensures all[k] == TryOf(paths[k], max, KindOf(toBrigade, Sink(init, all[..k], paths, max)))
    {
      assert all[..k] == trace[..k];
    }
  }

  /** mfs_file_server_get without a brigade; `file'` is a new file when the reply was spilled. */
  method GetWithoutBrigade(max: nat, r: Replica, file: File?, dest: Option<seq<byte>>)
    returns (ok: bool, total: nat, bytes: Option<seq<byte>>, file': File?, dest': Option<seq<byte>>, ghost t: Try)
    modifies file
    ensures t == TryOf(r, max, if file == null then ToBytes else ToFile)
    ensures ok == t.ok && (ok ==> total == |t.content|)
    ensures StateOf(file', dest') == SinkStep(old(StateOf(file, dest)), t, r, max)
    ensures file != null ==> file' == file
    ensures file == null && file' != null ==> fresh(file')
    ensures bytes == if ok && file' == null then Some(t.content) else None
  {
    hide Concat, Overwrite, AllTaken, Written;
    bytes, file', dest', total := None, file, dest, 0;
    t := TryOf(r, max, if file == null then ToBytes else ToFile);
    if file != null {
      ghost var wrote;
      ok, total, wrote := GetIntoFile(max, r, file);
    } else {
      var left;
      ok, total, bytes, file', left := GetBytesOrFile(max, r, HeldBy(dest));
      if dest.Some? {
        dest' := Some(left);
      }
    }
  }

  /** mfs_file_server_get into whichever sink there is. */
  method ServerGet(max: nat, r: Replica, file: File?, brigade: Brigade?, dest: Option<seq<byte>>)
    returns (ok: bool, total: nat, bytes: Option<seq<byte>>, file': File?, dest': Option<seq<byte>>,
             ghost t: Try, ghost added: seq<Bucket>)
    requires file == null || brigade == null
    modifies file, brigade
    ensures t == TryOf(r, max, KindOf(brigade != null, old(StateOf(file, dest))))
    ensures ok == t.ok && (ok ==> total == |t.content|)
    ensures brigade == null ==>
      && StateOf(file', dest') == SinkStep(old(StateOf(file, dest)), t, r, max)
      && bytes == if ok && file' == null then Some(t.content) else None
    ensures brigade != null ==>
      && file' == null
      && brigade.buckets == old(brigade.buckets) + added && (ok ==> Gained(added, t.content, max))
      && (!ok ==> AllMemory(added) && MemoryBytes(added) == [])
      && Content(old(brigade.buckets)) == old(Content(brigade.buckets))
      && Content(brigade.buckets) == old(Content(brigade.buckets)) + if ok then t.content else []
    ensures file != null ==> file' == file
    ensures file == null && file' != null ==> fresh(file')
  {
    hide Content, Gained, TryOf, SinkStep, MemoryBytes;
    added := [];
    if brigade != null {
      bytes, file', dest' := None, null, dest;
      ok, total, t, added := ExtendBrigade(max, r, brigade);
    } else {
      ok, total, bytes, file', dest', t := GetWithoutBrigade(max, r, file, dest);
    }
  }

  lemma DeliveredStep(trace: seq<Try>, t: Try)
    ensures Delivered(trace + [t]) == Delivered(trace) + if t.ok then t.content else []
  {
    assert (trace + [t])[..|trace|] == trace;
  }

  lemma SinkSnoc(init: SinkState, trace: seq<Try>, t: Try, paths: seq<Replica>, max: nat)
    requires |trace| < |paths|
    ensures Sink(init, trace + [t], paths, max) == SinkStep(Sink(init, trace, paths, max), t, paths[|trace|], max)
  {
    assert (trace + [t])[..|trace|] == trace;
  }

  /** The most the answers that arrived can hold in memory. */
  function MemoryBound(trace: seq<Try>, max: nat): nat {
    if trace == [] then 0
    else
      var last := trace[|trace| - 1];
      MemoryBound(trace[..|trace| - 1], max) + if last.ok then Min(|last.content|, max) else 0
  }

  predicate NoneSpills(trace: seq<Try>, max: nat) {
    forall k :: 0 <= k < |trace| && trace[k].ok ==> |trace[k].content| <= max
  }

  /** One more try in the brigade: the memory it takes. */
  lemma MemoryStep(trace: seq<Try>, t: Try, max: nat, before: seq<Bucket>, added: seq<Bucket>)
    requires if t.ok then Gained(added, t.content, max) else AllMemory(added) && MemoryBytes(added) == []
    ensures MemorySize(before + added) - MemorySize(before) <= MemoryBound(trace + [t], max) - MemoryBound(trace, max)
    ensures t.ok && |t.content| <= max ==> MemorySize(before + added) == MemorySize(before) + |t.content|
    ensures !t.ok ==> MemorySize(before + added) == MemorySize(before)
  {
    assert (trace + [t])[..|trace|] == trace;
    MemorySizeSplits(before, added);
    hide MemorySize, Content;
    if !t.ok || |t.content| <= max {
      MemorySizeOfMemory(added);
      ContentOfMemory(added);
    } else {
      var front, last := added[..|added| - 1], added[|added| - 1];
      assert added == front + [last];
      MemorySizeOfMemory(front);
      FileTakesNoMemory(front, last);
    }
  }

  lemma FileTakesNoMemory(front: seq<Bucket>, last: Bucket)
    requires last.FilePart?
    ensures MemorySize(front + [last]) == MemorySize(front)
  {
    assert (front + [last])[..|front|] == front;
  }

  /** What the brigade holds in memory after the tries, having held `before` bytes. */
  predicate MemoryHeld(size: nat, before: nat, trace: seq<Try>, max: nat) {
    && size <= before + MemoryBound(trace, max)
    && (NoneSpills(trace, max) ==> size == before + |Delivered(trace)|)
  }

  lemma MemoryHeldStep(trace: seq<Try>, t: Try, max: nat, start: nat, before: seq<Bucket>, added: seq<Bucket>)
    requires MemoryHeld(MemorySize(before), start, trace, max)
    requires if t.ok then Gained(added, t.content, max) else AllMemory(added) && MemoryBytes(added) == []
    ensures MemoryHeld(MemorySize(before + added), start, trace + [t], max)
  {
    hide MemorySize, MemoryBound, Gained, MemoryBytes, Delivered;
    MemoryStep(trace, t, max, before, added);
    DeliveredStep(trace, t);
    var all := trace + [t];
    if NoneSpills(all, max) {
      assert all[|trace|] == t;
      assert forall k :: 0 <= k < |trace| ==> trace[k] == all[k];
    }
  }

  lemma NothingHeld(size: nat, max: nat)
    ensures MemoryHeld(size, size, [], max)
  {
  }

  /**
   mfs_file_system_get.  The tries follow the replicas up to the first accepted
   one.  A brigade ends up as it was on entry followed by everything that
   successful transfers delivered, the accepted one in `added`, within the memory
   limit.  Otherwise the file, the caller's or a new one, or what is left at the
   destination path while there is none, is exactly what the tries make of it,
   and without a file the accepted content is in `bytes`.
   */
  method FileSystemGet(max: nat, paths: seq<Replica>, required: int, file0: File?, brigade: Brigade?,
                       dest0: Option<seq<byte>>)
    returns (ok: bool, total: nat, bytes: Option<seq<byte>>, file: File?, dest: Option<seq<byte>>,
             ghost trace: seq<Try>, ghost added: seq<Bucket>)
    requires paths != [] && (file0 == null || brigade == null) && (brigade != null ==> dest0 == None)
    modifies file0, brigade
    ensures Follows(trace, paths, required, ok)
    ensures Determined(trace, paths, max, brigade != null, old(StateOf(file0, dest0)))
    ensures ok ==> trace[|trace| - 1].ok && total == |trace[|trace| - 1].content|
    ensures ok && required >= 0 ==> total == required
    ensures !ok ==> |trace| == |paths|
    ensures forall k :: 0 <= k < (if ok then |trace| - 1 else |trace|) && trace[k].ok ==>
      required >= 0 && |trace[k].content| != required
    ensures brigade != null ==>
      && file == null
      && old(brigade.buckets) <= brigade.buckets
      && Content(brigade.buckets) == old(Content(brigade.buckets)) + Delivered(trace)
      && MemoryHeld(MemorySize(brigade.buckets), old(MemorySize(brigade.buckets)), trace, max)
      && (ok ==> Gained(added, trace[|trace| - 1].content, max) && InFront(brigade.buckets, added)
                 && Content(brigade.buckets[..|brigade.buckets| - |added|])
                    == old(Content(brigade.buckets)) + Delivered(trace[..|trace| - 1]))
    ensures brigade == null ==>
      && StateOf(file, dest) == Sink(old(StateOf(file0, dest0)), trace, paths, max)
      && (ok ==> bytes == if file == null then Some(trace[|trace| - 1].content) else None)
    ensures file0 != null ==> file == file0
    ensures file0 == null && file != null ==> fresh(file)
  {
    NoneRefusedYet(paths, required);
    hide Delivered, MatchesReplica, Content, Gained, Sink, SinkStep, TryOf, Determined, MemoryHeld, MemorySize,
         MemoryBytes, AllRefused, Accepted, Follows;
    ok, total, bytes, file, dest, trace, added := false, 0, None, file0, dest0, [], [];
    NothingDelivered();
    ghost var init := StateOf(file0, dest0);
    NothingSunk(init, paths, max, brigade != null);
    ghost var start := if brigade == null then 0 else MemorySize(brigade.buckets);
    NothingHeld(start, max);
    var i := 0;
    while i < |paths|
      invariant 0 <= i <= |paths| && |trace| == i && !ok
      invariant AllRefused(trace, paths, required)
      invariant i == |paths| ==> Follows(trace, paths, required, false)
      invariant brigade != null ==>
        && file == null && old(brigade.buckets) <= brigade.buckets
        && Content(brigade.buckets) == old(Content(brigade.buckets)) + Delivered(trace)
        && MemoryHeld(MemorySize(brigade.buckets), start, trace, max)
      invariant brigade == null ==> StateOf(file, dest) == Sink(init, trace, paths, max)
      invariant Determined(trace, paths, max, brigade != null, init)
      invariant file0 != null ==> file == file0
      invariant file0 == null && file != null ==> fresh(file)
    {
      ghost var t;
      var got, n;
      ghost var before := if brigade == null then [] else brigade.buckets;
      got, n, bytes, file, dest, t, added := ServerGet(max, paths[i], file, brigade, dest);
      TryMatches(paths[i], max, KindOf(brigade != null, Sink(init, trace, paths, max)));
      DeliveredStep(trace, t);
      SinkSnoc(init, trace, t, paths, max);
      DeterminedSnoc(trace, t, paths, max, brigade != null, init);
      if brigade != null {
        MemoryHeldStep(trace, t, max, start, before, added);
      }
      assert (trace + [t])[..i] == trace;
      if got {
        total := n;
        if required < 0 || total == required {
          ok := true;
          FollowsToWinner(trace, t, paths, required);
          trace := trace + [t];
          LengthsOf(trace, paths, required, true);
          return;
        }
      }
      OneMoreRefused(trace, t, paths, required);
      trace := trace + [t];
      i := i + 1;
    }
    LengthsOf(trace, paths, required, false);
  }

  /** The tries so far are the first replicas in order, none of them accepted. */
  predicate AllRefused(trace: seq<Try>, paths: seq<Replica>, required: int) {
    && |trace| <= |paths|
    && forall k :: 0 <= k < |trace| ==> MatchesReplica(trace[k], paths[k]) && !Accepted(trace[k], required)
  }

  lemma NoneRefusedYet(paths: seq<Replica>, required: int)
    ensures AllRefused([], paths, required)
  {
  }

  lemma OneMoreRefused(trace: seq<Try>, t: Try, paths: seq<Replica>, required: int)
    requires AllRefused(trace, paths, required) && |trace| < |paths| && MatchesReplica(t, paths[|trace|])
    requires t.ok ==> required >= 0 && |t.content| != required
    ensures AllRefused(trace + [t], paths, required)
    ensures |trace + [t]| == |paths| ==> Follows(trace + [t], paths, required, false)
  {
    hide MatchesReplica;
  }

  lemma FollowsToWinner(trace: seq<Try>, t: Try, paths: seq<Replica>, required: int)
    requires AllRefused(trace, paths, required) && |trace| < |paths| && MatchesReplica(t, paths[|trace|])
    requires t.ok && (required >= 0 ==> |t.content| == required)
    ensures Follows(trace + [t], paths, required, true)
  {
    hide MatchesReplica;
  }

  predicate InFront(all: seq<Bucket>, added: seq<Bucket>) {
    |added| <= |all| && all[|all| - |added|..] == added
  }

  lemma NothingSunk(init: SinkState, paths: seq<Replica>, max: nat, toBrigade: bool)
    ensures Sink(init, [], paths, max) == init && Determined([], paths, max, toBrigade, init)
  {
  }

  /** What following the replicas means for the lengths. */
  lemma LengthsOf(trace: seq<Try>, paths: seq<Replica>, required: int, ok: bool)
    requires Follows(trace, paths, required, ok)
    ensures ok ==> trace != [] && trace[|trace| - 1].ok && (required >= 0 ==> |trace[|trace| - 1].content| == required)
    ensures !ok ==> |trace| == |paths|
    ensures forall k :: 0 <= k < (if ok then |trace| - 1 else |trace|) && trace[k].ok ==>
      required >= 0 && |trace[k].content| != required
  {
    hide MatchesReplica;
    forall k | 0 <= k < (if ok then |trace| - 1 else |trace|) && trace[k].ok
      ensures required >= 0 && |trace[k].content| != required
    {
      assert !Accepted(trace[k], required);
    }
  }

  lemma NothingDelivered()
    ensures Delivered([]) == []
  {
  }

  // ------------------------------------------------ what the caller relies on

  lemma {:induction false} NoneOkDeliversNothing(trace: seq<Try>)
    requires forall k :: 0 <= k < |trace| ==> !trace[k].ok || trace[k].content == []
    ensures Delivered(trace) == []
  {
    if trace != [] {
      NoneOkDeliversNothing(trace[..|trace| - 1]);
    }
  }

  lemma {:induction false} DeliveredLength(trace: seq<Try>, k: nat)
    requires k < |trace| && trace[k].ok
    ensures |Delivered(trace)| >= |trace[k].content|
  {
    var n := |trace| - 1;
    if k < n {
      assert trace[..n][k] == trace[k];
      DeliveredLength(trace[..n], k);
    }
  }

  /** What the caller expects the brigade to gain. */
  function Wanted(trace: seq<Try>, ok: bool): seq<byte>
    requires ok ==> trace != []
  {
    if ok then trace[|trace| - 1].content else []
  }

  /** The tries whose answers were not accepted. */
  function Refused(trace: seq<Try>, ok: bool): seq<Try> {
    if ok && trace != [] then trace[..|trace| - 1] else trace
  }

  /**
   Success or failure, the brigade gains the winner's content alone, or nothing
   when there is no winner, if and only if every answer that arrived but had the
   wrong length was empty.
   */
  lemma BrigadeIsCleanIff(trace: seq<Try>, paths: seq<Replica>, required: int, ok: bool)
    requires Follows(trace, paths, required, ok)
    ensures Delivered(trace) == Wanted(trace, ok) <==>
      forall k :: 0 <= k < |Refused(trace, ok)| && trace[k].ok ==> trace[k].content == []
  {
    hide MatchesReplica;
    var front := Refused(trace, ok);
    DeliveredBeforeWinner(trace, ok);
    hide Follows, Delivered;
    assert forall k :: 0 <= k < |front| ==> front[k] == trace[k];
    if forall k :: 0 <= k < |front| && trace[k].ok ==> trace[k].content == [] {
      NoneOkDeliversNothing(front);
    } else {
      var k :| 0 <= k < |front| && trace[k].ok && trace[k].content != [];
      DeliveredLength(front, k);
      assert |Delivered(trace)| > |Wanted(trace, ok)|;
    }
  }

  lemma DeliveredBeforeWinner(trace: seq<Try>, ok: bool)
    requires ok ==> trace != [] && trace[|trace| - 1].ok
    ensures Delivered(trace) == Delivered(Refused(trace, ok)) + Wanted(trace, ok)
  {
  }

  /** Without a required length the first answer wins: success delivers it alone, failure delivers nothing. */
  lemma WithoutRequiredLength(trace: seq<Try>, paths: seq<Replica>, required: int, ok: bool)
    requires required < 0 && Follows(trace, paths, required, ok)
    ensures Delivered(trace) == Wanted(trace, ok)
  {
    hide *;
    BrigadeIsCleanIff(trace, paths, required, ok);
    RefusedAreNotOk(trace, paths, required, ok);
  }

  lemma RefusedAreNotOk(trace: seq<Try>, paths: seq<Replica>, required: int, ok: bool)
    requires required < 0 && Follows(trace, paths, required, ok)
    ensures |Refused(trace, ok)| <= |trace|
    ensures forall k :: 0 <= k < |Refused(trace, ok)| ==> !trace[k].ok
  {
    hide MatchesReplica;
    forall k | 0 <= k < |Refused(trace, ok)| ensures !trace[k].ok {
      assert !Accepted(trace[k], required);
    }
  }

  /** One replica that answers `required + 1` zeros. */
  function TooLong(required: nat): Replica {
    Transfer([Piece(Zeros(required + 1), Disk(true, required + 1))], true)
  }

  lemma TooLongSpoils(required: nat)
    ensures var paths, trace := [TooLong(required)], [Try(true, Zeros(required + 1))];
      Follows(trace, paths, required, false) && Delivered(trace) != Wanted(trace, false)
  {
    var pieces := TooLong(required).pieces;
    assert pieces[..0] == [];
    assert Concat(pieces) == [] + pieces[0].bytes;
    DeliveredStep([], Try(true, Zeros(required + 1)));
    assert [] + [Try(true, Zeros(required + 1))] == [Try(true, Zeros(required + 1))];
  }

  /** So a caller can rely on a clean brigade, whatever the replicas do, if and only if no length is required. */
  lemma CleanForAllIff(required: int)
    ensures (forall trace, paths, ok :: Follows(trace, paths, required, ok) ==> Delivered(trace) == Wanted(trace, ok))
      <==> required < 0
  {
    if required < 0 {
      forall trace, paths, ok | Follows(trace, paths, required, ok) ensures Delivered(trace) == Wanted(trace, ok) {
        WithoutRequiredLength(trace, paths, required, ok);
      }
    } else {
      TooLongSpoils(required);
      var paths, trace := [TooLong(required)], [Try(true, Zeros(required + 1))];
      assert Follows(trace, paths, required, false) && Delivered(trace) != Wanted(trace, false);
    }
  }

  /** A replica that answers one byte, and one that answers two. */
  function ShortThenFull(): (paths: seq<Replica>)
    ensures |paths| == 2
  {
    var disk := Disk(true, 2);
    [Transfer([Piece([1], disk)], true), Transfer([Piece([2, 3], disk)], true)]
  }

  function BothTries(): seq<Try> {
    [Try(true, [1]), Try(true, [2, 3])]
  }

  lemma BothAnswer()
    ensures forall k :: 0 <= k < 2 ==>
      var r := ShortThenFull()[k];
      r.Transfer? && r.completes && Roomy(r.pieces) && Concat(r.pieces) == BothTries()[k].content
  {
    var p, q := ShortThenFull()[0].pieces, ShortThenFull()[1].pieces;
    assert p[..0] == [] && q[..0] == [];
    assert Concat(p) == [1] && Concat(q) == [2, 3];
  }

  /** A replica of the wrong length is not rolled back: its one byte stays in front of the winner's two. */
  lemma MismatchStays()
    ensures Follows(BothTries(), ShortThenFull(), 2, true) && Delivered(BothTries()) == [1, 2, 3]
  {
    BothAnswer();
    hide Concat, Roomy;
    var trace := BothTries();
    DeliveredStep([], trace[0]);
    DeliveredStep([trace[0]], trace[1]);
    NothingDelivered();
    assert trace == [trace[0]] + [trace[1]] && [trace[0]] == [] + [trace[0]];
  }

  lemma OnlyTrace(trace: seq<Try>, ok: bool)
    requires Follows(trace, ShortThenFull(), 2, ok)
    ensures ok && trace == BothTries()
  {
    BothAnswer();
    hide Concat, Roomy;
    assert forall k :: 0 <= k < |trace| ==> MatchesReplica(trace[k], ShortThenFull()[k]);
    assert trace != [] && trace[0] == BothTries()[0];
    assert |trace| == 2 && trace[1] == BothTries()[1];
  }

  lemma BothFitInTwo()
    ensures NoneSpills(BothTries(), 2)
  {
  }

  /** So the call leaves the short answer in the brigade, and more in memory than the limit for one answer. */
  method GetAfterShortReply() returns (ok: bool, brigade: Brigade)
    ensures fresh(brigade) && ok && Content(brigade.buckets) == [1, 2, 3] && MemorySize(brigade.buckets) == 3
  {
    hide *;
    brigade := new Brigade();
    var paths := ShortThenFull();
    var total, bytes, file, dest;
    ghost var trace, added;
    ContentOfNothing();
    NoMemoryYet();
    ok, total, bytes, file, dest, trace, added := FileSystemGet(2, paths, 2, null, brigade, None);
    OnlyTrace(trace, ok);
    MismatchStays();
    BothFitInTwo();
    HeldWithoutSpill(MemorySize(brigade.buckets), 0, trace, 2);
  }

  lemma NoMemoryYet()
    ensures MemorySize([]) == 0
  {
  }

  lemma HeldWithoutSpill(size: nat, before: nat, trace: seq<Try>, max: nat)
    requires MemoryHeld(size, before, trace, max) && NoneSpills(trace, max)
    ensures size == before + |Delivered(trace)|
  {
  }
}
