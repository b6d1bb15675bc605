/**
 The download buffer of src/file_download.c: chunks go to memory buckets until
 the limit is passed and to a file from then on.
 */
module SpillBuffer {
  import opened Common
  import opened UrlCodec

  // ---------------------------------------------------------------- files

  function Zeros(n: nat): (z: seq<byte>)
    ensures |z| == n
  {
    seq(n, _ => 0)
  }

  /** What writing at a position makes of a file; a gap before the position is zero-filled. */
  function Overwrite(data: seq<byte>, pos: nat, bytes: seq<byte>): seq<byte> {
    if bytes == [] then data
    else
      var padded := if pos <= |data| then data else data + Zeros(pos - |data|);
      padded[..pos] + bytes + if pos + |bytes| < |padded| then padded[pos + |bytes|..] else []
  }

  lemma OverwriteLength(data: seq<byte>, pos: nat, bytes: seq<byte>)
    requires bytes != []
    ensures |Overwrite(data, pos, bytes)| == if |data| <= pos + |bytes| then pos + |bytes| else |data|
  {
  }

  /** Every byte of the file after a write. */
  lemma OverwriteByte(data: seq<byte>, pos: nat, bytes: seq<byte>, i: nat)
    requires bytes != [] && i < |Overwrite(data, pos, bytes)|
    ensures Overwrite(data, pos, bytes)[i] ==
      if pos <= i < pos + |bytes| then bytes[i - pos] else if i < |data| then data[i] else 0
  {
  }

  lemma OverwriteHolds(data: seq<byte>, pos: nat, bytes: seq<byte>)
    requires bytes != []
    ensures var r := Overwrite(data, pos, bytes); |r| >= pos + |bytes| && r[pos..pos + |bytes|] == bytes
  {
  }

  lemma OverwriteNothing(data: seq<byte>, pos: nat)
    ensures Overwrite(data, pos, []) == data
  {
  }

  lemma OverwriteAppendAt(data: seq<byte>, pos: nat, a: seq<byte>, b: seq<byte>, i: nat)
    requires a != [] && b != [] && i < |Overwrite(data, pos, a + b)|
    ensures var twice := Overwrite(Overwrite(data, pos, a), pos + |a|, b);
      |Overwrite(data, pos, a + b)| == |twice| && Overwrite(data, pos, a + b)[i] == twice[i]
  {
    hide Overwrite;
    var first := Overwrite(data, pos, a);
    OverwriteLength(data, pos, a);
    OverwriteLength(data, pos, a + b);
    OverwriteLength(first, pos + |a|, b);
    OverwriteByte(data, pos, a + b, i);
    OverwriteByte(first, pos + |a|, b, i);
    if i < |first| {
      OverwriteByte(data, pos, a, i);
    }
  }

  /** Two writes, the second where the first ended, are one. */
  lemma OverwriteAppend(data: seq<byte>, pos: nat, a: seq<byte>, b: seq<byte>)
    ensures Overwrite(Overwrite(data, pos, a), pos + |a|, b) == Overwrite(data, pos, a + b)
  {
    hide Overwrite;
    if a == [] {
      OverwriteNothing(data, pos);
      assert a + b == b;
    } else if b == [] {
      OverwriteNothing(Overwrite(data, pos, a), pos + |a|);
      assert a + b == a;
    } else {
      var once, twice := Overwrite(data, pos, a + b), Overwrite(Overwrite(data, pos, a), pos + |a|, b);
      OverwriteLength(data, pos, a + b);
      OverwriteAppendAt(data, pos, a, b, 0);
      forall i | 0 <= i < |once| ensures once[i] == twice[i] {
        OverwriteAppendAt(data, pos, a, b, i);
      }
    }
  }

  /** A write leaves exactly the written bytes if and only if it starts the file and reaches the old end. */
  lemma OverwriteIsExactIff(data: seq<byte>, pos: nat, bytes: seq<byte>)
    ensures Overwrite(data, pos, bytes) == bytes <==> |data| <= |bytes| && (pos == 0 || bytes == [])
  {
    if bytes != [] {
      OverwriteLength(data, pos, bytes);
    }
  }

  /** From the start of a file: the bytes, then what the file held beyond them. */
  lemma OverwriteFromStart(data: seq<byte>, bytes: seq<byte>)
    ensures Overwrite(data, 0, bytes) == bytes + if |bytes| < |data| then data[|bytes|..] else []
  {
  }

  class File {
    var data: seq<byte>
    var pos: nat

    constructor (data: seq<byte>)
      ensures this.data == data && pos == 0
    {
      this.data, pos := data, 0;
    }

    /** apr_file_write_full: everything, or what the disk still takes (`room` bytes) and an error. */
    method WriteFull(bytes: seq<byte>, room: nat) returns (ok: bool, written: nat)
      modifies this
      ensures ok <==> |bytes| <= room
      ensures written == if ok then |bytes| else room
      ensures data == Overwrite(old(data), old(pos), bytes[..written]) && pos == old(pos) + written
    {
      ok := |bytes| <= room;
      written := if ok then |bytes| else room;
      data := Overwrite(data, pos, bytes[..written]);
      pos := pos + written;
    }

    method Rewind()
      modifies this`pos
      ensures pos == 0
    {
      pos := 0;
    }
  }

  lemma SliceAppend(s: seq<byte>, more: seq<byte>, k: nat)
    requires k <= |s|
    ensures (s + more)[k..] == s[k..] + more && (s + more)[..k] == s[..k]
  {
  }

  // -------------------------------------------------------------- brigades

  datatype Bucket = Memory(bytes: seq<byte>) | FilePart(file: File, offset: nat, length: nat)

  function BucketBytes(b: Bucket): seq<byte>
    reads if b.FilePart? then {b.file} else {}
  {
    match b
    case Memory(bytes) => bytes
    case FilePart(f, offset, length) =>
      if offset + length <= |f.data| then f.data[offset..offset + length] else []
  }

  function FilesOf(bs: seq<Bucket>): set<File> {
    set b | b in bs && b.FilePart? :: b.file
  }

  /** The bytes a list of buckets carries. */
  function Content(bs: seq<Bucket>): seq<byte>
    reads FilesOf(bs)
  {
    if bs == [] then [] else Content(bs[..|bs| - 1]) + BucketBytes(bs[|bs| - 1])
  }

  predicate AllMemory(bs: seq<Bucket>) {
    forall i :: 0 <= i < |bs| ==> bs[i].Memory?
  }

  lemma ContentSnoc(bs: seq<Bucket>, b: Bucket)
    ensures Content(bs + [b]) == Content(bs) + BucketBytes(b)
  {
    assert (bs + [b])[..|bs|] == bs;
  }

  lemma ContentOfNothing()
    ensures Content([]) == []
  {
  }

  lemma {:induction false} ContentSplits(a: seq<Bucket>, b: seq<Bucket>)
    ensures Content(a + b) == Content(a) + Content(b)
    decreases |b|
  {
    hide Content, BucketBytes;
    if b == [] {
      assert a + b == a;
      ContentOfNothing();
    } else {
      var front, last := b[..|b| - 1], b[|b| - 1];
      assert b == front + [last] && a + b == (a + front) + [last];
      ContentSplits(a, front);
      ContentSnoc(front, last);
      ContentSnoc(a + front, last);
    }
  }

  /** The bytes of memory buckets; unlike Content it depends on no file. */
  function MemoryBytes(bs: seq<Bucket>): seq<byte>
    requires AllMemory(bs)
  {
    if bs == [] then [] else MemoryBytes(bs[..|bs| - 1]) + bs[|bs| - 1].bytes
  }

  lemma {:induction false} ContentOfMemory(bs: seq<Bucket>)
    requires AllMemory(bs)
    ensures Content(bs) == MemoryBytes(bs)
  {
    if bs != [] {
      ContentOfMemory(bs[..|bs| - 1]);
    }
  }

  lemma {:induction false} MemoryMonotone(bs: seq<Bucket>, i: nat)
    requires AllMemory(bs) && i <= |bs|
    ensures MemoryBytes(bs[..i]) <= MemoryBytes(bs)
  {
    if i < |bs| {
      assert bs[..|bs| - 1][..i] == bs[..i];
      MemoryMonotone(bs[..|bs| - 1], i);
    } else {
      assert bs[..i] == bs;
    }
  }

  lemma MemoryAppend(bs: seq<Bucket>, bytes: seq<byte>)
    requires AllMemory(bs)
    ensures AllMemory(bs + [Memory(bytes)]) && MemoryBytes(bs + [Memory(bytes)]) == MemoryBytes(bs) + bytes
  {
    assert (bs + [Memory(bytes)])[..|bs|] == bs;
  }

  /** How much of a brigade is held in memory. */
  function MemorySize(bs: seq<Bucket>): nat {
    if bs == [] then 0
    else
      var last := bs[|bs| - 1];
      MemorySize(bs[..|bs| - 1]) + if last.Memory? then |last.bytes| else 0
  }

  lemma {:induction false} MemorySizeSplits(a: seq<Bucket>, b: seq<Bucket>)
    ensures MemorySize(a + b) == MemorySize(a) + MemorySize(b)
    decreases |b|
  {
    if b == [] {
      assert a + b == a;
    } else {
      assert (a + b)[..|a + b| - 1] == a + b[..|b| - 1];
      MemorySizeSplits(a, b[..|b| - 1]);
    }
  }

  lemma {:induction false} MemorySizeOfMemory(bs: seq<Bucket>)
    requires AllMemory(bs)
    ensures MemorySize(bs) == |MemoryBytes(bs)|
  {
    if bs != [] {
      MemorySizeOfMemory(bs[..|bs| - 1]);
    }
  }

  class Brigade {
    var buckets: seq<Bucket>

    constructor ()
      ensures buckets == []
    {
      buckets := [];
    }
  }

  // ---------------------------------------------------------- the callback

  /** How the disk behaves during one callback: whether a file can be opened, and how much it takes. */
  datatype Disk = Disk(opens: bool, room: nat)

  /** Where a download goes: the caller's file, the caller's brigade, or bytes (a file when they are too many). */
  datatype Kind = ToFile | ToBrigade | ToBytes

  class WriteBuffer {
    const maxBufferSize: nat
    const brigade: Brigade?
    const dontWantBrigade: bool
    /** What the destination path already held; the file is opened without truncation. */
    const stale: seq<byte>
    var currentSize: nat
    var fileSize: nat
    var file: File?

    /** Ghost account: buckets there before, where the file part starts and what the file
     held; bytes accepted, how many of them are in memory, and what was written to the file. */
    ghost const base: seq<Bucket>
    ghost const callersFile: bool
    ghost const origin: nat
    ghost const initial: seq<byte>
    ghost var got: seq<byte>
    ghost var inMemory: nat
    ghost var inFile: seq<byte>

    ghost predicate Valid()
      reads this, brigade, file
    {
      && currentSize == |got| && inMemory <= |got| && inMemory <= maxBufferSize
      && (callersFile <==> brigade == null)
      && (dontWantBrigade ==> base == [])
      && (callersFile ==> file != null && dontWantBrigade && inMemory == 0)
      && (!callersFile ==> origin == 0 && initial == stale)
      && (!callersFile ==> (file != null <==> |got| > maxBufferSize))
      && (file == null ==> inMemory == |got| && fileSize == 0)
      && FileHolds()
      && (brigade != null ==> Carries(brigade.buckets, base, got[..inMemory]))
      && (file != null ==>
            && fileSize == |got| - FileStart() && file.pos == origin + fileSize
            && inFile == got[FileStart()..])
    }

    /** The file, once there is one, is what it was, overwritten with `inFile` from `origin` on. */
    ghost predicate FileHolds()
      reads this, file
    {
      if file == null then inFile == [] else file.data == Overwrite(initial, origin, inFile)
    }

    /** The buckets of before, then memory buckets with these bytes. */
    static ghost predicate Carries(buckets: seq<Bucket>, base: seq<Bucket>, bytes: seq<byte>) {
      && |base| <= |buckets| && buckets[..|base|] == base
      && AllMemory(buckets[|base|..])
      && MemoryBytes(buckets[|base|..]) == bytes
    }

    ghost function Destination(): Kind
      reads this
    {
      if callersFile then ToFile else if dontWantBrigade then ToBytes else ToBrigade
    }

    /** When a chunk is taken whole: the chunk that passes the limit needs a file, with room for what is moved to it. */
    ghost predicate Takes(chunk: seq<byte>, disk: Disk)
      reads this
    {
      if file != null then |chunk| <= disk.room
      else if |chunk| + currentSize <= maxBufferSize then true
      else disk.opens && |chunk| + (if dontWantBrigade then currentSize else 0) <= disk.room
    }

    /** What the file holds of this transfer after the callback, taken whole or not. */
    ghost function Writes(chunk: seq<byte>, disk: Disk): seq<byte>
      reads this
    {
      if file != null then inFile + chunk[..Min(|chunk|, disk.room)]
      else if |chunk| + currentSize <= maxBufferSize || !disk.opens then []
      else
        var moved := (if dontWantBrigade then got else []) + chunk;
        moved[..Min(|moved|, disk.room)]
    }

    /** The first accepted byte that is in the file: all of them, unless the brigade carries the front. */
    ghost function FileStart(): (n: nat)
      reads this
      ensures n <= |got|
    {
      if dontWantBrigade || inMemory > |got| then 0 else inMemory
    }

    constructor (max: nat, brigade: Brigade?, dontWantBrigade: bool, file: File?, stale: seq<byte>)
      requires (brigade == null <==> file != null) && (file != null ==> dontWantBrigade)
      requires brigade != null && dontWantBrigade ==> brigade.buckets == []
      ensures Valid() && got == [] && this.file == file && this.brigade == brigade
      ensures maxBufferSize == max && this.dontWantBrigade == dontWantBrigade && this.stale == stale
      ensures callersFile == (file != null) && (file != null ==> origin == file.pos && initial == file.data)
      ensures brigade != null ==> base == brigade.buckets
    {
      maxBufferSize, this.brigade, this.dontWantBrigade := max, brigade, dontWantBrigade;
      this.file, this.stale := file, stale;
      currentSize, fileSize, got, inMemory, inFile := 0, 0, [], 0, [];
      base := if brigade == null then [] else brigade.buckets;
      callersFile := file != null;
      origin := if file == null then 0 else file.pos;
      initial := if file == null then stale else file.data;
    }

    /** What the clean-up after a failed transfer relies on: the old buckets, then memory buckets within the limit. */
    ghost predicate Removable()
      reads this, brigade
    {
      brigade != null ==>
        && |base| <= |brigade.buckets| && brigade.buckets[..|base|] == base
        && AllMemory(brigade.buckets[|base|..])
        && |MemoryBytes(brigade.buckets[|base|..])| <= maxBufferSize
        && (currentSize == 0 ==> MemoryBytes(brigade.buckets[|base|..]) == [])
    }

    /** The memory branch: one more bucket. */
    method KeepInMemory(chunk: seq<byte>)
      requires Valid() && brigade != null && file == null && |chunk| + currentSize <= maxBufferSize
      modifies this`currentSize, this`got, this`inMemory, brigade
      ensures Valid() && got == old(got) + chunk
    {
      ghost var mine := brigade.buckets[|base|..];
      brigade.buckets := brigade.buckets + [Memory(chunk)];
      currentSize := currentSize + |chunk|;
      got := got + chunk;
      inMemory := |got|;
      assert brigade.buckets[|base|..] == mine + [Memory(chunk)];
      MemoryAppend(mine, chunk);
    }

    /** One write at the end of what was written. */
    method WriteOn(chunk: seq<byte>, room: nat) returns (ok: bool, taken: nat)
      requires file != null && FileHolds() && file.pos == origin + |inFile|
      modifies this`inFile, file
      ensures ok <==> |chunk| <= room
      ensures taken == if ok then |chunk| else room
      ensures taken <= |chunk| && inFile == old(inFile) + chunk[..taken]
      ensures FileHolds() && file.pos == origin + |inFile|
    {
      hide Overwrite;
      ok, taken := file.WriteFull(chunk, room);
      OverwriteAppend(initial, origin, inFile, chunk[..taken]);
      inFile := inFile + chunk[..taken];
    }

    /** The file branch.  The sizes are advanced even when the write fails. */
    method AppendToFile(chunk: seq<byte>, room: nat) returns (taken: nat)
      requires Valid() && file != null
      modifies this`currentSize, this`fileSize, this`got, this`inFile, file
      ensures taken == Min(|chunk|, room) && inFile == old(inFile) + chunk[..taken] && FileHolds()
      ensures taken == |chunk| ==> Valid() && got == old(got) + chunk
      ensures currentSize == old(currentSize) + |chunk|
    {
      hide Overwrite, Carries;
      ghost var k := FileStart();
      SliceAppend(got, chunk, k);
      SliceAppend(got, chunk, inMemory);
      var ok;
      ok, taken := WriteOn(chunk, room);
      fileSize := fileSize + |chunk|;
      currentSize := currentSize + |chunk|;
      if ok {
        assert chunk[..taken] == chunk;
        got := got + chunk;
        assert FileStart() == k;
      }
    }

    /** Copies the memory buckets to the new file, when the brigade is not wanted. */
    method CopyBuckets(room: nat) returns (ok: bool, left: nat)
      requires brigade != null && file != null && AllMemory(brigade.buckets)
      requires file.pos == 0 && fileSize == 0
      modifies this`fileSize, file
      ensures ok <==> |MemoryBytes(brigade.buckets)| <= room
      ensures ok ==> file.pos == fileSize == |MemoryBytes(brigade.buckets)| == room - left
      ensures var bytes := MemoryBytes(brigade.buckets);
        file.data == Overwrite(old(file.data), 0, bytes[..Min(|bytes|, room)])
    {
      hide Overwrite;
      left, ok := room, true;
      OverwriteNothing(file.data, 0);
      var i := 0;
      ghost var bs := brigade.buckets;
      while i < |brigade.buckets|
        invariant 0 <= i <= |bs| && brigade.buckets == bs && ok
        invariant file.pos == fileSize == |MemoryBytes(bs[..i])| == room - left
        invariant file.data == Overwrite(old(file.data), 0, MemoryBytes(bs[..i]))
      {
        ghost var done := MemoryBytes(bs[..i]);
        var bytes := brigade.buckets[i].bytes;
        assert bs[..i + 1] == bs[..i] + [Memory(bytes)];
        MemoryAppend(bs[..i], bytes);
        MemoryMonotone(bs, i + 1);
        var written;
        ok, written := file.WriteFull(bytes, left);
        OverwriteAppend(old(file.data), 0, done, bytes[..written]);
        if !ok {
          assert done + bytes <= MemoryBytes(bs);
          assert done + bytes[..written] == MemoryBytes(bs)[..room];
          return;
        }
        assert bytes[..written] == bytes;
        left := left - written;
        fileSize := fileSize + |bytes|;
        i := i + 1;
      }
      assert bs[..i] == bs;
      assert MemoryBytes(bs)[..|MemoryBytes(bs)|] == MemoryBytes(bs);
    }

    /** The branch that passes the limit: open a file, move what has to be moved, write the chunk. */
    method StartSpill(chunk: seq<byte>, disk: Disk) returns (taken: nat)
      requires Valid() && brigade != null && file == null && |chunk| + currentSize > maxBufferSize
      modifies this`currentSize, this`fileSize, this`got, this`file, this`inFile
      ensures taken == |chunk| ==> Valid() && got == old(got) + chunk
      ensures taken != |chunk| ==> taken == 0 && currentSize == old(currentSize)
      ensures currentSize >= old(currentSize)
      ensures file != null ==> fresh(file)
      ensures taken == |chunk| <==> old(Takes(chunk, disk))
      ensures FileHolds() && inFile == old(Writes(chunk, disk))
    {
      hide Overwrite;
      assert brigade.buckets[0..] == brigade.buckets && got[..inMemory] == got;
      if !disk.opens {
        return 0;
      }
      OverwriteNothing(stale, 0);
      file := new File(stale);
      var room, ok := disk.room, true;
      ghost var moved := (if dontWantBrigade then got else []) + chunk;
      if dontWantBrigade {
        ok, room := CopyBuckets(room);
        if !ok {
          inFile := got[..disk.room];
          assert moved[..disk.room] == inFile;
          return 0;
        }
        assert got[..|got|] == got;
      }
      taken := SpillChunk(chunk, room);
      assert inFile == moved[..Min(|moved|, disk.room)];
    }

    /** The write of the current chunk to the new file. */
    method SpillChunk(chunk: seq<byte>, room: nat) returns (taken: nat)
      requires brigade != null && file != null && currentSize == |got| == inMemory <= maxBufferSize
      requires |chunk| + currentSize > maxBufferSize && !callersFile && origin == 0
      requires dontWantBrigade ==> base == []
      requires |base| <= |brigade.buckets| && brigade.buckets[..|base|] == base && AllMemory(brigade.buckets[|base|..])
      requires MemoryBytes(brigade.buckets[|base|..]) == got
      requires file.pos == fileSize == (if dontWantBrigade then |got| else 0)
      requires initial == stale && file.data == Overwrite(initial, 0, if dontWantBrigade then got else [])
      modifies this`currentSize, this`fileSize, this`got, this`inFile, file
      ensures |chunk| <= room <==> taken == |chunk|
      ensures taken == |chunk| ==> Valid() && got == old(got) + chunk
      ensures taken != |chunk| ==> taken == 0 && currentSize == old(currentSize)
      ensures FileHolds() && inFile == (if dontWantBrigade then old(got) else []) + chunk[..Min(|chunk|, room)]
    {
      hide Overwrite;
      ghost var front := if dontWantBrigade then got else [];
      var ok;
      ok, taken := file.WriteFull(chunk, room);
      OverwriteAppend(initial, 0, front, chunk[..taken]);
      inFile := front + chunk[..taken];
      if !ok {
        return 0;
      }
      assert chunk[..taken] == chunk;
      fileSize := fileSize + |chunk|;
      currentSize := currentSize + |chunk|;
      ghost var before := got;
      got := got + chunk;
      assert got[FileStart()..] == inFile;
      assert got[..inMemory] == before;
    }

    /**
     mfs_buffer_get_write_callback.  A return other than the chunk's length makes
     cURL abort; then only what the clean-up needs is promised.
     */
    method Receive(chunk: seq<byte>, disk: Disk) returns (taken: nat)
      requires Valid()
      modifies this`currentSize, this`fileSize, this`got, this`file, this`inMemory, this`inFile, brigade, file
      ensures taken == |chunk| ==> Valid() && got == old(got) + chunk
      ensures taken != |chunk| ==> taken < |chunk| && Removable()
      ensures file != old(file) ==> old(file) == null && fresh(file)
      ensures currentSize >= old(currentSize)
      ensures taken == |chunk| <==> old(Takes(chunk, disk))
      ensures old(file) != null ==> (taken == |chunk| <==> |chunk| <= disk.room)
      ensures old(file) == null && |old(got)| + |chunk| <= maxBufferSize ==> taken == |chunk|
      ensures old(file) == null && |old(got)| + |chunk| > maxBufferSize ==>
        (taken == |chunk| <==> disk.opens && |chunk| + (if dontWantBrigade then |old(got)| else 0) <= disk.room)
      ensures FileHolds() && inFile == old(Writes(chunk, disk))
      ensures callersFile ==> file == old(file) && currentSize == |old(got)| + |chunk|
    {
      hide MemoryBytes, Overwrite;
      if file != null {
        taken := AppendToFile(chunk, disk.room);
      } else if |chunk| + currentSize > maxBufferSize {
        NoMemoryYet();
        taken := StartSpill(chunk, disk);
      } else {
        KeepInMemory(chunk);
        taken := |chunk|;
      }
    }

    lemma NoMemoryYet()
      requires Valid() && brigade != null
      ensures got == [] ==> MemoryBytes(brigade.buckets[|base|..]) == []
    {
    }
  }
}
