/**
 The receive loop of mfs_tracker_request (src/tracker.c): a reply arrives in
 chunks, is reassembled, loses its CR LF, and is parsed.
 */
module Receive {
  import opened UrlCodec
  import opened ReplyParser

  /**
   What one socket receive gives, at most 4096 bytes at a time in the source.  After
   the listed events the socket times out, which is a failure too.
   */
  datatype Recv = Chunk(bytes: seq<byte>) | Failed

  datatype Received = Line(bytes: seq<byte>) | SocketError | EndOfFile

  datatype Answer = NoAnswer | Answer(outcome: Outcome)

  /** The loop: stop when what has been gathered ends in a newline. */
  function Collect(got: seq<byte>, stream: seq<Recv>): Received
    decreases |stream|
  {
    if stream == [] || stream[0].Failed? then SocketError
    else if stream[0].bytes == [] then EndOfFile
    else
      var all := got + stream[0].bytes;
      if all[|all| - 1] == LF then Line(all) else Collect(all, stream[1..])
  }

  /** The whole of a reply's treatment. */
  function HandleReply(stream: seq<Recv>, r: Dict): Answer {
    match Collect([], stream)
    case Line(all) =>
      if |all| > 1 && all[|all| - 2] == CR then Answer(ParseReply(all[|all| - 2 := NUL], |all|, r))
      else Answer(Malformed(r))
    case _ => NoAnswer
  }

  // ---------------------------------------------------- splitting a reply

  function Flatten(chunks: seq<Recv>): seq<byte>
    requires forall i :: 0 <= i < |chunks| ==> chunks[i].Chunk?
  {
    if chunks == [] then [] else chunks[0].bytes + Flatten(chunks[1..])
  }

  predicate NonEmptyChunks(chunks: seq<Recv>) {
    forall i :: 0 <= i < |chunks| ==> chunks[i].Chunk? && chunks[i].bytes != []
  }

  /** A way the network may deliver `reply`. */
  predicate Splits(chunks: seq<Recv>, reply: seq<byte>) {
    NonEmptyChunks(chunks) && Flatten(chunks) == reply
  }

  /** The reply is one line: its only newline is its last byte. */
  predicate OneLine(reply: seq<byte>) {
    && reply != []
    && reply[|reply| - 1] == LF
    && forall i :: 0 <= i < |reply| - 1 ==> reply[i] != LF
  }

  /** One turn of the loop. */
  lemma CollectStep(got: seq<byte>, c: seq<byte>, rest: seq<Recv>)
    requires c != []
    ensures Collect(got, [Chunk(c)] + rest) == if c[|c| - 1] == LF then Line(got + c) else Collect(got + c, rest)
  {
    assert ([Chunk(c)] + rest)[1..] == rest;
    assert (got + c)[|got + c| - 1] == c[|c| - 1];
  }

  lemma FlattenCons(chunks: seq<Recv>)
    requires NonEmptyChunks(chunks) && chunks != []
    ensures Flatten(chunks) == chunks[0].bytes + Flatten(chunks[1..])
    ensures chunks[1..] != [] ==> Flatten(chunks[1..]) != []
    ensures chunks[1..] == [] ==> Flatten(chunks[1..]) == []
  {
    if chunks[1..] != [] {
      assert chunks[1..][0] == chunks[1];
    }
  }

  /** The newline of a line is where its last chunk ends, and no chunk before ends in one. */
  lemma LineEndsAtEnd(got: seq<byte>, c: seq<byte>, tail: seq<byte>)
    requires c != [] && OneLine(got + (c + tail))
    ensures OneLine(got + c + tail) && (c[|c| - 1] == LF <==> tail == [])
  {
    var all := got + (c + tail);
    assert all == got + c + tail;
    assert all[|got| + |c| - 1] == c[|c| - 1];
  }

  lemma {:induction false} CollectOneLine(got: seq<byte>, chunks: seq<Recv>, after: seq<Recv>)
    requires NonEmptyChunks(chunks) && chunks != [] && OneLine(got + Flatten(chunks))
    ensures Collect(got, chunks + after) == Line(got + Flatten(chunks))
    decreases |chunks|
  {
    hide Collect, Flatten, OneLine;
    var c, rest := chunks[0].bytes, chunks[1..];
    var tail := Flatten(rest);
    assert chunks + after == [Chunk(c)] + (rest + after);
    FlattenCons(chunks);
    LineEndsAtEnd(got, c, tail);
    CollectStep(got, c, rest + after);
    assert got + (c + tail) == got + c + tail;
    if rest == [] {
      assert got + c + [] == got + c;
    } else {
      CollectOneLine(got + c, rest, after);
    }
  }

  function Singletons(reply: seq<byte>): seq<Recv> {
    if reply == [] then [] else [Chunk([reply[0]])] + Singletons(reply[1..])
  }

  lemma {:induction false} SingletonsSplit(reply: seq<byte>)
    ensures Splits(Singletons(reply), reply)
  {
    if reply != [] {
      SingletonsSplit(reply[1..]);
      var s := Singletons(reply);
      assert s[1..] == Singletons(reply[1..]);
      assert reply == [reply[0]] + reply[1..];
    }
  }

  /** Byte by byte, the loop stops at the first newline. */
  lemma {:induction false} CollectStopsEarly(got: seq<byte>, reply: seq<byte>, k: nat)
    requires k < |reply| && reply[k] == LF
    ensures var c := Collect(got, Singletons(reply)); c.Line? && |c.bytes| <= |got| + k + 1
    decreases |reply|
  {
    var s := Singletons(reply);
    assert s[1..] == Singletons(reply[1..]);
    if reply[0] != LF {
      CollectStopsEarly(got + [reply[0]], reply[1..], k - 1);
    }
  }

  /**
   Reassembly does not depend on how TCP cut the reply, and this holds for
   exactly the replies that are one line: with a newline inside, some way of
   cutting ends the loop early.
   */
  lemma SplitIndependentIff(reply: seq<byte>)
    requires reply != [] && reply[|reply| - 1] == LF
    ensures (forall chunks :: Splits(chunks, reply) ==> Collect([], chunks) == Line(reply)) <==> OneLine(reply)
  {
    if OneLine(reply) {
      forall chunks | Splits(chunks, reply) ensures Collect([], chunks) == Line(reply) {
        SplitIndependent(chunks, [], reply);
        assert chunks + [] == chunks;
      }
    } else {
      var k :| 0 <= k < |reply| - 1 && reply[k] == LF;
      SingletonsSplit(reply);
      CollectStopsEarly([], reply, k);
      assert Collect([], Singletons(reply)) != Line(reply);
    }
  }

  /** Any two deliveries of a one-line reply, whatever follows on the socket, are treated alike. */
  lemma SplitIndependent(chunks: seq<Recv>, after: seq<Recv>, reply: seq<byte>)
    requires OneLine(reply) && Splits(chunks, reply)
    ensures Collect([], chunks + after) == Line(reply)
    ensures forall r :: HandleReply(chunks + after, r) == HandleReply([Chunk(reply)], r)
  {
    hide ParseReply, Flatten, Collect;
    SplitsNotEmpty(chunks, reply);
    assert [] + reply == reply;
    CollectOneLine([], chunks, after);
    CollectStep([], reply, []);
    assert [Chunk(reply)] + [] == [Chunk(reply)];
  }

  lemma SplitsNotEmpty(chunks: seq<Recv>, reply: seq<byte>)
    requires Splits(chunks, reply) && reply != []
    ensures chunks != []
  {
  }

  /** A line without CR before its LF is rejected, and the hash kept. */
  lemma NoCrIsRejected(chunks: seq<Recv>, after: seq<Recv>, reply: seq<byte>, r: Dict)
    requires OneLine(reply) && Splits(chunks, reply)
    requires |reply| >= 2 ==> reply[|reply| - 2] != 0x0d
    ensures HandleReply(chunks + after, r) == Answer(Malformed(r))
  {
    SplitIndependent(chunks, after, reply);
  }

  /** A line with CR LF is parsed with NUL for the CR, at its full size. */
  lemma CrLfIsCut(chunks: seq<Recv>, after: seq<Recv>, text: seq<byte>, r: Dict)
    requires 0x0a !in text && Splits(chunks, text + [0x0d, 0x0a])
    ensures var b := text + [0x00, 0x0a]; HandleReply(chunks + after, r) == Answer(ParseReply(b, |b|, r))
  {
    hide ParseReply;
    var reply := text + [CR, LF];
    SplitIndependent(chunks, after, reply);
    assert reply[|reply| - 2 := NUL] == text + [NUL, LF];
  }

  /** A socket error or an empty receive before the line is complete leaves no answer. */
  lemma {:induction false} BrokenOffIsNoAnswer(got: seq<byte>, chunks: seq<Recv>, after: seq<Recv>)
    requires NonEmptyChunks(chunks) && 0x0a !in Flatten(chunks)
    requires after == [] || after[0] == Failed || after[0] == Chunk([])
    ensures Collect(got, chunks + after) == if after != [] && after[0] == Chunk([]) then EndOfFile else SocketError
    decreases |chunks|
  {
    if chunks == [] {
      assert chunks + after == after;
    } else {
      hide Collect, Flatten;
      var c, rest := chunks[0].bytes, chunks[1..];
      assert chunks + after == [Chunk(c)] + (rest + after);
      FlattenCons(chunks);
      assert c[|c| - 1] in Flatten(chunks);
      CollectStep(got, c, rest + after);
      BrokenOffIsNoAnswer(got + c, rest, after);
    }
  }

  lemma BrokenOffAnswers(chunks: seq<Recv>, after: seq<Recv>, r: Dict)
    requires NonEmptyChunks(chunks) && 0x0a !in Flatten(chunks)
    requires after == [] || after[0] == Failed || after[0] == Chunk([])
    ensures HandleReply(chunks + after, r) == NoAnswer
  {
    BrokenOffIsNoAnswer([], chunks, after);
  }

  // --------------------------------------------------------------- methods

  /** Puts a chunk after what has been gathered, in a new buffer. */
  method Extend(buf: array<byte>, chunk: seq<byte>) returns (bigger: array<byte>)
    ensures fresh(bigger) && bigger[..] == buf[..] + chunk
  {
    var size := buf.Length;
    bigger := new byte[|chunk| + size];
    forall i | 0 <= i < size {
      bigger[i] := buf[i];
    }
    forall i | 0 <= i < |chunk| {
      bigger[size + i] := chunk[i];
    }
  }

  /** The receive loop over growing buffers. */
  method ReceiveLine(stream: seq<Recv>) returns (status: Received, buf: array<byte>)
    ensures status == Collect([], stream) && fresh(buf)
    ensures status.Line? ==> buf[..] == status.bytes
  {
    buf := new byte[0];
    var i, started, finished := 0, false, false;
    assert buf[..] == [] && stream[0..] == stream;
    while !finished
      invariant 0 <= i <= |stream| && fresh(buf)
      invariant !started && !finished ==> buf[..] == []
      invariant finished ==> Collect([], stream) == Line(buf[..])
      invariant !finished ==> Collect([], stream) == Collect(buf[..], stream[i..])
      decreases !finished, |stream| - i
    {
      if i == |stream| || stream[i].Failed? {
        return SocketError, buf;
      }
      var chunk := stream[i].bytes;
      assert stream[i..][0] == stream[i] && stream[i..][1..] == stream[i + 1..];
      if |chunk| > 0 && chunk[|chunk| - 1] == LF && !started {
        buf := Extend(buf, chunk);
        finished := true;
      } else if |chunk| == 0 {
        return EndOfFile, buf;
      } else {
        buf := Extend(buf, chunk);
        started := true;
        finished := buf[buf.Length - 1] == LF;
      }
      i := i + 1;
    }
    status := Line(buf[..]);
  }

  /** The tail of mfs_tracker_request: receive, check and cut the terminator, parse. */
  method AwaitReply(stream: seq<Recv>, r: Dict) returns (a: Answer)
    ensures a == HandleReply(stream, r)
  {
    hide Collect, ParseReply;
    var status, buf := ReceiveLine(stream);
    if !status.Line? {
      return NoAnswer;
    }
    var size := buf.Length;
    if size > 1 && buf[size - 2] == CR {
      buf[size - 2] := NUL;
      assert buf[..] == status.bytes[size - 2 := NUL];
      var o := ParseResponse(buf, size, r);
      return Answer(o);
    }
    return Answer(Malformed(r));
  }
}
