/**
 The upload protocol of src/file_upload.c: create_open, PUT, create_close, with
 retries that may reuse one open result once.  `RunStore` says what a run does,
 the methods carry it out, and the lemmas are about every run.  Trackers, file
 servers and disks are arbitrary: `world(i)` is what they do in attempt i.
 */
module Upload {
  import opened Common
  import opened UrlCodec

  type Fields = map<string, string>

  /** The caller's bytes, or a file whose size is looked up at the first PUT. */
  datatype Source = Bytes(content: seq<byte>) | FromFile(content: seq<byte>)

  /** One call of the read callback: how much cURL asks for, and whether a file read fails. */
  datatype Ask = Ask(size: nat, fails: bool)

  /**
   What the world does in one attempt.  The replies of a call are those of all
   trackers tried, in order: a reply rejected as malformed leaves its leading
   pairs in the hash before the next tracker is asked.
   */
  datatype Round = Round(
    openSent: bool, openOk: bool, openReplies: seq<Fields>,
    uriOk: bool, seekOk: bool,
    connected: bool, statOk: bool, asks: seq<Ask>, stored: bool,
    closeSent: bool, closeOk: bool, closeReplies: seq<Fields>)

  datatype Event =
    | Opened(round: nat, good: bool, replies: seq<Fields>, result: Fields)
    | Put(round: nat, path: string, good: bool, sent: seq<byte>)
    | Closed(round: nat, path: string, fid: string, devid: string, size: int, acked: bool, replies: seq<Fields>)

  /** The loop's variables; `result` is the one hash that every tracker reply of the run is merged into. */
  datatype Store = Store(callTracker: bool, putUrl: string, fid: string, devid: string, result: Fields, size: int)

  function Initial(src: Source): Store {
    Store(true, "", "", "", map[], if src.Bytes? then |src.content| else -1)
  }

  // ---------------------------------------------------------- the transfer

  /** The position the read callbacks have reached when cURL stops asking. */
  function Supplied(src: Source, pos: nat, size: nat, asks: seq<Ask>): (end: nat)
    requires pos <= |src.content|
    ensures pos <= end <= |src.content|
    decreases |asks|
  {
    if asks == [] || pos >= size || (src.FromFile? && asks[0].fails) then pos
    else
      var n := Min(asks[0].size, |src.content| - pos);
      if n == 0 then pos else Supplied(src, pos + n, size, asks[1..])
  }

  /** total_bytes after mfs_file_server_put. */
  function ResolvedSize(src: Source, size: int, w: Round): int {
    if src.FromFile? && size == -1 && w.connected && w.statOk then |src.content| else size
  }

  function PutSent(src: Source, size: int, w: Round): seq<byte> {
    var s := ResolvedSize(src, size, w);
    if !w.connected || s < 0 then [] else src.content[..Supplied(src, 0, s, w.asks)]
  }

  /** cURL reports success only when the announced size was supplied. */
  function PutGood(src: Source, size: int, w: Round): bool {
    var s := ResolvedSize(src, size, w);
    w.connected && s >= 0 && w.stored && |PutSent(src, size, w)| == s
  }

  // -------------------------------------------------------------- a round

  /** The hash after the replies were put into it, later ones over earlier ones. */
  function MergeInto(base: Fields, replies: seq<Fields>): Fields {
    if replies == [] then base else MergeInto(base, replies[..|replies| - 1]) + replies[|replies| - 1]
  }

  predicate HasTriple(d: Fields) {
    "path" in d && "fid" in d && "devid" in d
  }

  function AfterOpen(st: Store, w: Round): Store {
    var result := MergeInto(st.result, w.openReplies);
    var st1 := st.(result := result);
    if !(w.openSent && w.openOk) || "path" !in result then st1
    else
      var st2 := st1.(putUrl := result["path"]);
      if "fid" !in result then st2
      else
        var st3 := st2.(fid := result["fid"]);
        if "devid" !in result then st3 else st3.(devid := result["devid"], callTracker := false)
  }

  function OpenGood(st: Store, w: Round): bool {
    w.openSent && w.openOk && HasTriple(MergeInto(st.result, w.openReplies))
  }

  datatype RoundResult = RoundResult(st: Store, good: bool, aborted: bool, events: seq<Event>)

  function OpenPhase(st: Store, w: Round, i: nat): RoundResult {
    if st.callTracker then
      RoundResult(AfterOpen(st, w), OpenGood(st, w), false,
                  [Opened(i, OpenGood(st, w), w.openReplies, MergeInto(st.result, w.openReplies))])
    else RoundResult(st.(callTracker := true), true, false, [])
  }

  function PutPhase(src: Source, st: Store, w: Round, i: nat): RoundResult {
    if !w.uriOk then RoundResult(st, false, false, [])
    else if src.FromFile? && !w.seekOk then RoundResult(st, false, true, [])
    else
      var good := PutGood(src, st.size, w);
      RoundResult(st.(size := ResolvedSize(src, st.size, w)), good, false,
                  [Put(i, st.putUrl, good, PutSent(src, st.size, w))])
  }

  function ClosePhase(st: Store, w: Round, i: nat): RoundResult {
    var acked := w.closeSent && w.closeOk;
    RoundResult(st.(result := MergeInto(st.result, w.closeReplies)), acked, false,
                [Closed(i, st.putUrl, st.fid, st.devid, st.size, acked, w.closeReplies)])
  }

  function RunRound(src: Source, st: Store, w: Round, i: nat): RoundResult {
    var o := OpenPhase(st, w, i);
    if !o.good then o
    else
      var p := PutPhase(src, o.st, w, i);
      if !p.good then p.(events := o.events + p.events)
      else
        var c := ClosePhase(p.st, w, i);
        c.(events := o.events + p.events + c.events)
  }

  /** mfs_store_file_or_bytes from attempt i on: whether it succeeds, and what it does. */
  function RunStore(src: Source, st: Store, world: nat -> Round, i: nat, max: int): (r: (bool, seq<Event>))
    decreases max - i
  {
    if i >= max then (false, [])
    else
      var r := RunRound(src, st, world(i), i);
      if r.good || r.aborted then (r.good, r.events)
      else
        var rest := RunStore(src, r.st, world, i + 1, max);
        (rest.0, r.events + rest.1)
  }

  // ------------------------------------------------------------- invariants

  predicate SizeOk(src: Source, size: int) {
    size == |src.content| || (src.FromFile? && size == -1)
  }

  /** An open whose lookup of the shared hash gave all three fields, and these were them. */
  predicate Gave(e: Event, path: string, fid: string, devid: string) {
    && e.Opened? && e.good && HasTriple(e.result)
    && e.result["path"] == path && e.result["fid"] == fid && e.result["devid"] == devid
  }

  /** Position of the last create_open in the log, -1 if there is none. */
  function LastOpen(log: seq<Event>): (j: int)
    ensures -1 <= j < |log|
    ensures j >= 0 ==> log[j].Opened?
    ensures forall k :: j < k < |log| ==> !log[k].Opened?
  {
    if log == [] then -1
    else if log[|log| - 1].Opened? then |log| - 1
    else LastOpen(log[..|log| - 1])
  }

  /** The last create_open is good, was made in attempts lo to hi, and gave this path, fid and devid. */
  predicate Given(log: seq<Event>, path: string, fid: string, devid: string, lo: int, hi: int) {
    var j := LastOpen(log);
    j >= 0 && Gave(log[j], path, fid, devid) && lo <= log[j].round <= hi
  }

  /** A cached triple is that of a good open in the attempt just before, the last one made. */
  predicate Cached(log: seq<Event>, st: Store, i: nat) {
    st.callTracker || Given(log, st.putUrl, st.fid, st.devid, i - 1, i - 1)
  }

  /**
   Event k, if a create_close: the event before is a successful PUT of the whole
   source to the same path in the same attempt, the size is what was sent, and
   path, fid and devid are those the last create_open found, at most one attempt ago.
   If a PUT, at least the path is.
   */
  predicate Justified(src: Source, log: seq<Event>, k: nat)
    requires k < |log|
  {
    var e := log[k];
    && (e.Closed? ==>
          && k > 0
          && log[k - 1] == Put(e.round, e.path, true, src.content)
          && e.size == |src.content|
          && Given(log[..k], e.path, e.fid, e.devid, e.round - 1, e.round))
    && (e.Put? ==> PathGiven(log[..k], e.path, e.round - 1, e.round))
  }

  /** The last create_open is good, was made in attempts lo to hi, and gave this path. */
  predicate PathGiven(log: seq<Event>, path: string, lo: int, hi: int) {
    var j := LastOpen(log);
    && j >= 0 && log[j].good && "path" in log[j].result && log[j].result["path"] == path
    && lo <= log[j].round <= hi
  }

  predicate AllJustified(src: Source, log: seq<Event>) {
    forall k :: 0 <= k < |log| ==> Justified(src, log, k)
  }

  // ---------------------------------------------------------------- lemmas

  lemma PutSendsAll(src: Source, size: int, w: Round)
    requires SizeOk(src, size)
    ensures SizeOk(src, ResolvedSize(src, size, w))
    ensures PutGood(src, size, w) ==>
      PutSent(src, size, w) == src.content && ResolvedSize(src, size, w) == |src.content|
  {
    if PutGood(src, size, w) {
      var n := |src.content|;
      assert src.content[..n] == src.content;
    }
  }

  lemma GivenExtends(log: seq<Event>, e: Event, path: string, fid: string, devid: string, lo: int, hi: int)
    requires Given(log, path, fid, devid, lo, hi) && !e.Opened?
    ensures Given(log + [e], path, fid, devid, lo, hi)
  {
    assert (log + [e])[..|log|] == log;
  }

  /** Appending an event keeps all earlier ones justified. */
  lemma JustifiedSnoc(src: Source, log: seq<Event>, e: Event)
    requires AllJustified(src, log)
    requires e.Closed? ==>
      && log != [] && log[|log| - 1] == Put(e.round, e.path, true, src.content) && e.size == |src.content|
      && Given(log, e.path, e.fid, e.devid, e.round - 1, e.round)
    requires e.Put? ==> PathGiven(log, e.path, e.round - 1, e.round)
    ensures AllJustified(src, log + [e])
  {
    var all := log + [e];
    forall k | 0 <= k < |all| ensures Justified(src, all, k) {
      if k < |log| {
        assert Justified(src, log, k);
        assert all[..k] == log[..k];
        assert k > 0 ==> all[k - 1] == log[k - 1];
      } else {
        assert all[..k] == log;
      }
    }
  }

  /** The open phase: its triple is this attempt's or, cached, the one before's. */
  lemma OpenPhaseKeeps(src: Source, log: seq<Event>, st: Store, w: Round, i: nat)
    requires AllJustified(src, log) && Cached(log, st, i)
    ensures var o := OpenPhase(st, w, i); var l := log + o.events;
      && AllJustified(src, l) && !o.aborted && o.st.size == st.size
      && (o.good ==> Given(l, o.st.putUrl, o.st.fid, o.st.devid, i - 1, i))
      && Cached(l, o.st, i + 1)
  {
    var o := OpenPhase(st, w, i);
    var l := log + o.events;
    if st.callTracker {
      JustifiedSnoc(src, log, o.events[0]);
      if o.good {
        assert Gave(l[|log|], o.st.putUrl, o.st.fid, o.st.devid);
      }
    } else {
      assert l == log;
    }
  }

  lemma PutPhaseKeeps(src: Source, log: seq<Event>, st: Store, w: Round, i: nat)
    requires AllJustified(src, log) && SizeOk(src, st.size) && Cached(log, st, i + 1)
    requires Given(log, st.putUrl, st.fid, st.devid, i - 1, i)
    ensures var p := PutPhase(src, st, w, i); var l := log + p.events;
      && AllJustified(src, l) && SizeOk(src, p.st.size) && Cached(l, p.st, i + 1)
      && (p.good ==>
            && Given(l, p.st.putUrl, p.st.fid, p.st.devid, i - 1, i) && p.st.size == |src.content|
            && l[|l| - 1] == Put(i, p.st.putUrl, true, src.content))
  {
    var p := PutPhase(src, st, w, i);
    PutSendsAll(src, st.size, w);
    if p.events == [] {
      assert log + p.events == log;
    } else {
      JustifiedSnoc(src, log, p.events[0]);
      GivenExtends(log, p.events[0], st.putUrl, st.fid, st.devid, i - 1, i);
      if !st.callTracker {
        GivenExtends(log, p.events[0], st.putUrl, st.fid, st.devid, i, i);
      }
    }
  }

  /** One attempt keeps every create_close justified and every cache one attempt old. */
  lemma RoundKeeps(src: Source, log: seq<Event>, st: Store, w: Round, i: nat)
    requires AllJustified(src, log) && Cached(log, st, i) && SizeOk(src, st.size)
    ensures var r := RunRound(src, st, w, i); var l := log + r.events;
      AllJustified(src, l) && Cached(l, r.st, i + 1) && SizeOk(src, r.st.size)
  {
    hide AllJustified, Cached, Given, AfterOpen, OpenGood, PutGood, PutSent, ResolvedSize;
    var o := OpenPhase(st, w, i);
    OpenPhaseKeeps(src, log, st, w, i);
    if o.good {
      var p := PutPhase(src, o.st, w, i);
      PutPhaseKeeps(src, log + o.events, o.st, w, i);
      assert log + o.events + p.events == log + (o.events + p.events);
      if p.good {
        var c := ClosePhase(p.st, w, i);
        var l := log + (o.events + p.events);
        JustifiedSnoc(src, l, c.events[0]);
        CacheSurvivesClose(l, p.st, c.st, c.events[0], i + 1);
        assert l + c.events == log + (o.events + p.events + c.events);
      }
    }
  }

  lemma CacheSurvivesClose(log: seq<Event>, st: Store, st': Store, e: Event, i: nat)
    requires Cached(log, st, i) && st' == st.(result := st'.result) && !e.Opened?
    ensures Cached(log + [e], st', i)
  {
    if !st.callTracker {
      GivenExtends(log, e, st.putUrl, st.fid, st.devid, i - 1, i - 1);
    }
  }

  lemma {:induction false} RunKeeps(src: Source, log: seq<Event>, st: Store, world: nat -> Round, i: nat, max: int)
    requires AllJustified(src, log) && Cached(log, st, i) && SizeOk(src, st.size)
    ensures AllJustified(src, log + RunStore(src, st, world, i, max).1)
    decreases max - i
  {
    hide AllJustified, Cached, RunRound, SizeOk;
    if i >= max {
      assert log + [] == log;
    } else {
      var r := RunRound(src, st, world(i), i);
      RoundKeeps(src, log, st, world(i), i);
      if !r.good && !r.aborted {
        RunKeeps(src, log + r.events, r.st, world, i + 1, max);
        var rest := RunStore(src, r.st, world, i + 1, max).1;
        assert log + r.events + rest == log + (r.events + rest);
      }
    }
  }

  /**
   Main result: in every run, each create_close follows a complete, successful
   PUT to the same path in the same attempt, and carries the path, fid and devid
   that the last create_open found, made in that attempt or the one before.
   */
  lemma ClosesAreJustified(src: Source, world: nat -> Round, max: int)
    ensures AllJustified(src, RunStore(src, Initial(src), world, 0, max).1)
  {
    RunKeeps(src, [], Initial(src), world, 0, max);
    var log := RunStore(src, Initial(src), world, 0, max).1;
    assert [] + log == log;
  }

  // ------------------------------------------------------ result of a run

  predicate Acked(e: Event) {
    e.Closed? && e.acked
  }

  /** Attempts are numbered from i and stay below the limit; an acknowledged close ends the log. */
  predicate WellEnded(log: seq<Event>, ok: bool, i: nat, max: int) {
    && (forall k :: 0 <= k < |log| ==> i <= log[k].round < max)
    && (forall k :: 0 <= k < |log| - 1 ==> !Acked(log[k]))
    && (ok <==> log != [] && Acked(log[|log| - 1]))
  }

  lemma EndsConcat(log: seq<Event>, rest: seq<Event>, ok: bool, i: nat, max: int)
    requires WellEnded(log, false, i, max) && WellEnded(rest, ok, i, max)
    ensures WellEnded(log + rest, ok, i, max)
  {
    assert forall k :: 0 <= k < |log| ==> !Acked(log[k]);
    hide Acked;
    var all := log + rest;
    forall k | 0 <= k < |all| ensures i <= all[k].round < max && (k < |all| - 1 ==> !Acked(all[k])) {
      assert all[k] == if k < |log| then log[k] else rest[k - |log|];
    }
  }

  lemma CloseEnds(st: Store, w: Round, i: nat, max: int)
    requires i < max
    ensures var c := ClosePhase(st, w, i); WellEnded(c.events, c.good, i, max) && !c.aborted
  {
  }

  lemma RoundEnds(src: Source, st: Store, w: Round, i: nat, max: int)
    requires i < max
    ensures var r := RunRound(src, st, w, i); WellEnded(r.events, r.good, i, max) && (r.good ==> !r.aborted)
  {
    var o := OpenPhase(st, w, i);
    assert WellEnded(o.events, false, i, max) && !o.aborted;
    if o.good {
      var p := PutPhase(src, o.st, w, i);
      assert WellEnded(p.events, false, i, max) && (p.good ==> !p.aborted);
      hide OpenPhase, PutPhase, ClosePhase, WellEnded;
      EndsConcat(o.events, p.events, false, i, max);
      if p.good {
        CloseEnds(p.st, w, i, max);
        var c := ClosePhase(p.st, w, i);
        EndsConcat(o.events + p.events, c.events, c.good, i, max);
      }
    }
  }

  /**
   Every run makes at most max_retries attempts, reports success exactly when its
   last event is an acknowledged create_close, and has no other acknowledged one.
   */
  lemma {:induction false} RunEnds(src: Source, st: Store, world: nat -> Round, i: nat, max: int)
    ensures var r := RunStore(src, st, world, i, max); WellEnded(r.1, r.0, i, max)
    decreases max - i
  {
    hide RunRound;
    if i < max {
      var r := RunRound(src, st, world(i), i);
      RoundEnds(src, st, world(i), i, max);
      if !r.good && !r.aborted {
        RunEnds(src, r.st, world, i + 1, max);
        var rest := RunStore(src, r.st, world, i + 1, max);
        EndsConcat(r.events, rest.1, rest.0, i, max);
      }
    }
  }

  // ------------------------------------------------- what the world has said

  /** The create_open of attempt i: good when the tracker accepted it and the hash then names all three fields. */
  predicate OpenTrue(e: Event, w: Round, i: nat) {
    && e.Opened? && e.round == i && e.replies == w.openReplies
    && (e.good <==> w.openSent && w.openOk && "path" in e.result && "fid" in e.result && "devid" in e.result)
  }

  /** The PUT of attempt i: good when the whole source went to a file server that could be reached and stored it. */
  predicate PutTrue(src: Source, e: Event, w: Round, i: nat) {
    && e.Put? && e.round == i && w.uriOk && (src.Bytes? || w.seekOk)
    && (e.good ==> w.connected && w.stored && e.sent == src.content)
    && (w.connected && (src.Bytes? || w.statOk) && w.stored && e.sent == src.content ==> e.good)
    && e.sent <= src.content && (!w.connected ==> e.sent == [])
  }

  /** The create_close of attempt i: acknowledged when the tracker accepted it. */
  predicate CloseTrue(e: Event, w: Round, i: nat) {
    && e.Closed? && e.round == i && e.replies == w.closeReplies
    && (e.acked <==> w.closeSent && w.closeOk)
  }

  /**
   The whole course of a run from attempt i on, told by what the world says: an
   attempt opens unless the one before did so successfully, PUTs if it has a path
   it can use, closes if the PUT went well, and ends the run if the close was
   accepted, or without success if the file cannot be rewound.
   */
  predicate Story(src: Source, world: nat -> Round, log: seq<Event>, i: nat, max: int, cached: bool, ok: bool)
    decreases max - i
  {
    if i >= max then log == [] && !ok
    else
      var w := world(i);
      && (cached || (log != [] && OpenTrue(log[0], w, i)))
      && var rest, usable := if cached then log else log[1..], cached || log[0].good;
         if !usable then Story(src, world, rest, i + 1, max, false, ok)
         else if !w.uriOk then Story(src, world, rest, i + 1, max, !cached, ok)
         else if src.FromFile? && !w.seekOk then rest == [] && !ok
         else
           && rest != [] && PutTrue(src, rest[0], w, i)
           && if !rest[0].good then Story(src, world, rest[1..], i + 1, max, !cached, ok)
              else
                && |rest| >= 2 && CloseTrue(rest[1], w, i)
                && if rest[1].acked then |rest| == 2 && ok
                   else Story(src, world, rest[2..], i + 1, max, !cached, ok)
  }

  lemma PutPhaseIsTrue(src: Source, st: Store, w: Round, i: nat)
    requires SizeOk(src, st.size) && w.uriOk && (src.Bytes? || w.seekOk)
    ensures var p := PutPhase(src, st, w, i);
      |p.events| == 1 && PutTrue(src, p.events[0], w, i) && p.good == p.events[0].good && !p.aborted
  {
    PutSendsAll(src, st.size, w);
  }

  /** What one attempt adds to the story, and what it leaves to the next. */
  lemma RoundParts(src: Source, st: Store, w: Round, i: nat) returns (open: seq<Event>, more: seq<Event>)
    requires SizeOk(src, st.size)
    ensures var r := RunRound(src, st, w, i);
      && r.events == open + more && |open| == (if st.callTracker then 1 else 0) && SizeOk(src, r.st.size)
      && (st.callTracker ==> OpenTrue(open[0], w, i))
      && var usable := !st.callTracker || open[0].good;
         && (if !usable then more == [] && !r.good && !r.aborted && r.st.callTracker
             else if !w.uriOk then more == [] && !r.good && !r.aborted && r.st.callTracker == !st.callTracker
             else if src.FromFile? && !w.seekOk then more == [] && !r.good && r.aborted
             else
               && !r.aborted && r.st.callTracker == !st.callTracker
               && more != [] && PutTrue(src, more[0], w, i)
               && if more[0].good then |more| == 2 && CloseTrue(more[1], w, i) && r.good == more[1].acked
                  else |more| == 1 && !r.good)
  {
    var o := OpenPhase(st, w, i);
    open, more := o.events, [];
    assert st.callTracker ==> OpenTrue(open[0], w, i);
    assert o.good ==> o.st.callTracker == !st.callTracker;
    assert !o.good ==> o.st.callTracker;
    PutSendsAll(src, st.size, w);
    hide AfterOpen, OpenGood, MergeInto, PutGood, PutSent, OpenTrue;
    if o.good && w.uriOk && (src.Bytes? || w.seekOk) {
      PutPhaseIsTrue(src, o.st, w, i);
      var p := PutPhase(src, o.st, w, i);
      CloseIsTrue(p.st, w, i);
      more := if p.good then p.events + ClosePhase(p.st, w, i).events else p.events;
    }
  }

  /** Every run tells such a story. */
  lemma {:induction false} RunTellsStory(src: Source, st: Store, world: nat -> Round, i: nat, max: int)
    requires SizeOk(src, st.size)
    ensures var r := RunStore(src, st, world, i, max); Story(src, world, r.1, i, max, !st.callTracker, r.0)
    decreases max - i
  {
    hide RunRound, SizeOk, OpenTrue, PutTrue, CloseTrue;
    if i < max {
      var r, all := RunRound(src, st, world(i), i), RunStore(src, st, world, i, max).1;
      var open, more := RoundParts(src, st, world(i), i);
      var rest := [];
      if !r.good && !r.aborted {
        RunTellsStory(src, r.st, world, i + 1, max);
        rest := RunStore(src, r.st, world, i + 1, max).1;
      } else {
        assert open + more + [] == open + more;
      }
      StoryGoesOn(open, more, rest, all);
    }
  }

  lemma CloseIsTrue(st: Store, w: Round, i: nat)
    ensures var c := ClosePhase(st, w, i);
      |c.events| == 1 && CloseTrue(c.events[0], w, i) && c.good == c.events[0].acked
  {
  }

  lemma StoryGoesOn(open: seq<Event>, more: seq<Event>, rest: seq<Event>, all: seq<Event>)
    requires all == open + more + rest && |open| <= 1
    ensures open == [] ==> all[|more|..] == rest && all[..|more|] == more
    ensures open != [] ==> all[0] == open[0] && all[1..][|more|..] == rest && all[1..][..|more|] == more
  {
  }

  /** Each event is what the world said in its attempt. */
  predicate EventTrue(src: Source, e: Event, world: nat -> Round) {
    match e
    case Opened(i, _, _, _) => OpenTrue(e, world(i), i)
    case Put(i, _, _, _) => PutTrue(src, e, world(i), i)
    case Closed(i, _, _, _, _, _, _) => CloseTrue(e, world(i), i)
  }

  predicate AllTrue(src: Source, log: seq<Event>, world: nat -> Round) {
    forall k :: 0 <= k < |log| ==> EventTrue(src, log[k], world)
  }

  lemma AllTrueAfter(src: Source, log: seq<Event>, n: nat, world: nat -> Round)
    requires n <= |log| && AllTrue(src, log[..n], world) && AllTrue(src, log[n..], world)
    ensures AllTrue(src, log, world)
  {
    hide EventTrue;
    forall k | 0 <= k < |log| ensures EventTrue(src, log[k], world) {
      assert log[k] == if k < n then log[..n][k] else log[n..][k - n];
    }
  }

  /** What is left of the story after the PUT of attempt i. */
  lemma {:induction false} PutIsTrue(src: Source, world: nat -> Round, log: seq<Event>, i: nat, max: int,
                                     cached: bool, ok: bool)
    requires i < max && log != [] && PutTrue(src, log[0], world(i), i)
    requires if !log[0].good then Story(src, world, log[1..], i + 1, max, cached, ok)
      else
        && |log| >= 2 && CloseTrue(log[1], world(i), i)
        && if log[1].acked then |log| == 2 && ok else Story(src, world, log[2..], i + 1, max, cached, ok)
    ensures AllTrue(src, log, world)
    decreases max - i, 0
  {
    hide Story, AllTrue;
    assert AllTrue(src, log[..1], world) by {
      OneTrue(src, log[0], world);
      assert log[..1] == [log[0]];
    }
    if !log[0].good {
      StoryIsTrue(src, world, log[1..], i + 1, max, cached, ok);
    } else {
      OneTrue(src, log[1], world);
      assert log[1..][..1] == [log[1]] && log[1..][1..] == log[2..];
      if log[1].acked {
        NoneTrue(src, log[2..], world);
      } else {
        StoryIsTrue(src, world, log[2..], i + 1, max, cached, ok);
      }
      AllTrueAfter(src, log[1..], 1, world);
    }
    AllTrueAfter(src, log, 1, world);
  }

  lemma OneTrue(src: Source, e: Event, world: nat -> Round)
    requires EventTrue(src, e, world)
    ensures AllTrue(src, [e], world)
  {
  }

  lemma NoneTrue(src: Source, log: seq<Event>, world: nat -> Round)
    ensures log == [] ==> AllTrue(src, log, world)
  {
  }

  lemma {:induction false} StoryIsTrue(src: Source, world: nat -> Round, log: seq<Event>, i: nat, max: int,
                                       cached: bool, ok: bool)
    requires Story(src, world, log, i, max, cached, ok)
    ensures AllTrue(src, log, world)
    decreases max - i, 1
  {
    NoneTrue(src, log, world);
    if i < max {
      var w, first := world(i), if cached then 0 else 1;
      hide AllTrue, PutTrue, CloseTrue;
      var rest, usable := log[first..], cached || log[0].good;
      if !usable || !w.uriOk {
        StoryIsTrue(src, world, rest, i + 1, max, usable && !cached, ok);
      } else if src.Bytes? || w.seekOk {
        PutIsTrue(src, world, rest, i, max, !cached, ok);
      } else {
        NoneTrue(src, rest, world);
      }
      if cached {
        NoneTrue(src, log[..first], world);
      } else {
        OneTrue(src, log[0], world);
        assert log[..first] == [log[0]];
      }
      AllTrueAfter(src, log, first, world);
    }
  }

  /**
   Main result: over every run, the log is the story the world tells, each event
   is what the world said, and the run succeeds if and only if it came to a
   create_close that the tracker accepted.
   */
  lemma RunIsTrue(src: Source, world: nat -> Round, max: int)
    ensures var r := RunStore(src, Initial(src), world, 0, max); var log := r.1;
      && Story(src, world, log, 0, max, false, r.0)
      && (forall k :: 0 <= k < |log| ==> EventTrue(src, log[k], world))
      && (r.0 <==> exists k :: 0 <= k < |log| && log[k].Closed?
                               && world(log[k].round).closeSent && world(log[k].round).closeOk)
  {
    hide Story, RunStore, OpenTrue, PutTrue;
    RunTellsStory(src, Initial(src), world, 0, max);
    var r := RunStore(src, Initial(src), world, 0, max);
    var log := r.1;
    StoryIsTrue(src, world, log, 0, max, false, r.0);
    RunEnds(src, Initial(src), world, 0, max);
    forall k | 0 <= k < |log| && log[k].Closed?
      ensures Acked(log[k]) <==> world(log[k].round).closeSent && world(log[k].round).closeOk
    {
      assert EventTrue(src, log[k], world);
    }
  }

  // ------------------------------------------------------ a run that works

  function Asked(asks: seq<Ask>): nat {
    if asks == [] then 0 else asks[0].size + Asked(asks[1..])
  }

  /** Nothing is read any more once a file read has failed. */
  lemma {:induction false} FailedReadStops(src: Source, pos: nat, size: nat, before: seq<Ask>, failed: Ask,
                                           after: seq<Ask>)
    requires pos <= |src.content| && src.FromFile? && failed.fails
    ensures Supplied(src, pos, size, before + [failed] + after) == Supplied(src, pos, size, before)
    decreases |before|
  {
    var all := before + [failed] + after;
    if before == [] {
      assert all[0] == failed;
    } else {
      assert all[0] == before[0] && all[1..] == before[1..] + [failed] + after;
      if pos < size && !before[0].fails {
        FailedReadStops(src, pos + Min(before[0].size, |src.content| - pos), size, before[1..], failed, after);
      }
    }
  }

  /** Callbacks that succeed and are asked for something each time supply what they are asked for, up to the end. */
  lemma {:induction false} SuppliedIsAsked(src: Source, pos: nat, asks: seq<Ask>)
    requires pos <= |src.content|
    requires forall k :: 0 <= k < |asks| ==> asks[k].size > 0 && (src.Bytes? || !asks[k].fails)
    ensures Supplied(src, pos, |src.content|, asks) ==
      if pos + Asked(asks) <= |src.content| then pos + Asked(asks) else |src.content|
    decreases |asks|
  {
    if asks != [] && pos < |src.content| {
      SuppliedIsAsked(src, pos + Min(asks[0].size, |src.content| - pos), asks[1..]);
    }
  }

  /** Callbacks that are asked for something each time, for enough in all, supply the whole source. */
  lemma {:induction false} EnoughAsksSupplyAll(src: Source, pos: nat, asks: seq<Ask>)
    requires pos <= |src.content|
    requires forall k :: 0 <= k < |asks| ==> asks[k].size > 0 && !asks[k].fails
    requires pos + Asked(asks) >= |src.content|
    ensures Supplied(src, pos, |src.content|, asks) == |src.content|
    decreases |asks|
  {
    if asks != [] && pos < |src.content| {
      EnoughAsksSupplyAll(src, pos + Min(asks[0].size, |src.content| - pos), asks[1..]);
    }
  }

  /** Tracker, file server and disk all do their part. */
  predicate Cooperative(src: Source, w: Round) {
    && w.openSent && w.openOk && HasTriple(MergeInto(map[], w.openReplies)) && w.uriOk && w.seekOk
    && w.connected && w.statOk && w.stored && w.closeSent && w.closeOk
    && (forall k :: 0 <= k < |w.asks| ==> w.asks[k].size > 0 && !w.asks[k].fails)
    && Asked(w.asks) >= |src.content|
  }

  /** Then the first attempt opens, PUTs the whole source to the path given, and closes with what the replies gave. */
  lemma CooperativeRunSucceeds(src: Source, world: nat -> Round, max: int)
    requires max > 0 && Cooperative(src, world(0))
    ensures var w := world(0); var d := MergeInto(map[], w.openReplies);
      RunStore(src, Initial(src), world, 0, max) ==
        (true, [Opened(0, true, w.openReplies, d), Put(0, d["path"], true, src.content),
                Closed(0, d["path"], d["fid"], d["devid"], |src.content|, true, w.closeReplies)])
  {
    hide MergeInto;
    var w, st := world(0), Initial(src);
    EnoughAsksSupplyAll(src, 0, w.asks);
    assert src.content[..|src.content|] == src.content;
    assert ResolvedSize(src, st.size, w) == |src.content|;
    assert PutSent(src, st.size, w) == src.content;
    hide Supplied, PutSent, ResolvedSize;
    var d := MergeInto(map[], w.openReplies);
    var o := OpenPhase(st, w, 0);
    assert o.events == [Opened(0, true, w.openReplies, d)] && o.st.putUrl == d["path"];
    var p := PutPhase(src, o.st, w, 0);
    assert p.events == [Put(0, d["path"], true, src.content)] && p.good;
    var c := ClosePhase(p.st, w, 0);
    assert c.events == [Closed(0, d["path"], d["fid"], d["devid"], |src.content|, true, w.closeReplies)];
    var r := RunRound(src, st, w, 0);
    assert r.good && r.events == o.events + p.events + c.events;
    assert r.events == [o.events[0], p.events[0], c.events[0]];
    assert RunStore(src, st, world, 0, max) == (true, r.events);
  }

  // -------------------------------------------- where the triple comes from

  /** What trackers answered in this event, one after the other; a PUT has no such answers. */
  function RepliesOf(e: Event): seq<Fields> {
    if e.Put? then [] else e.replies
  }

  /** The answers of all trackers, in order. */
  function AllReplies(log: seq<Event>): seq<Fields> {
    if log == [] then [] else AllReplies(log[..|log| - 1]) + RepliesOf(log[|log| - 1])
  }

  /** Position of the last reply that names the field, -1 if none does. */
  function Latest(replies: seq<Fields>, field: string): (p: int)
    ensures -1 <= p < |replies|
    ensures p >= 0 ==> field in replies[p]
    ensures forall k :: p < k < |replies| ==> field !in replies[k]
  {
    if replies == [] then -1
    else if field in replies[|replies| - 1] then |replies| - 1
    else Latest(replies[..|replies| - 1], field)
  }

  lemma {:induction false} MergedField(replies: seq<Fields>, field: string)
    ensures field in MergeInto(map[], replies) <==> Latest(replies, field) >= 0
    ensures field in MergeInto(map[], replies) ==>
      MergeInto(map[], replies)[field] == replies[Latest(replies, field)][field]
  {
    if replies != [] {
      MergedField(replies[..|replies| - 1], field);
    }
  }

  lemma {:induction false} MergeConcat(base: Fields, a: seq<Fields>, b: seq<Fields>)
    ensures MergeInto(base, a + b) == MergeInto(MergeInto(base, a), b)
    decreases |b|
  {
    if b == [] {
      assert a + b == a;
    } else {
      assert (a + b)[..|a + b| - 1] == a + b[..|b| - 1];
      MergeConcat(base, a, b[..|b| - 1]);
    }
  }

  /** The loop's hash, and the hash each create_open was looked up in, is the merge of the replies so far. */
  predicate Merges(log: seq<Event>, st: Store) {
    && st.result == MergeInto(map[], AllReplies(log))
    && forall k :: 0 <= k < |log| && log[k].Opened? ==> log[k].result == MergeInto(map[], AllReplies(log[..k + 1]))
  }

  lemma RepliesSnoc(log: seq<Event>, e: Event)
    ensures AllReplies(log + [e]) == AllReplies(log) + RepliesOf(e)
  {
    assert (log + [e])[..|log|] == log;
  }

  lemma MergesSnoc(log: seq<Event>, st: Store, e: Event, st': Store)
    requires Merges(log, st) && st'.result == MergeInto(st.result, RepliesOf(e))
    requires e.Opened? ==> e.result == st'.result
    ensures Merges(log + [e], st')
  {
    hide AllReplies, RepliesOf, MergeInto;
    RepliesSnoc(log, e);
    MergeConcat(map[], AllReplies(log), RepliesOf(e));
    var all := log + [e];
    forall k | 0 <= k < |all| && all[k].Opened? ensures all[k].result == MergeInto(map[], AllReplies(all[..k + 1])) {
      if k < |log| {
        assert all[..k + 1] == log[..k + 1];
      } else {
        assert all[..k + 1] == all;
      }
    }
  }

  lemma RoundMerges(src: Source, log: seq<Event>, st: Store, w: Round, i: nat)
    requires Merges(log, st)
    ensures var r := RunRound(src, st, w, i); Merges(log + r.events, r.st)
  {
    hide Merges, MergeInto, OpenGood, PutGood, PutSent, ResolvedSize;
    var o := OpenPhase(st, w, i);
    var l := log + o.events;
    OpenMerges(log, st, w, i);
    if o.good {
      var p := PutPhase(src, o.st, w, i);
      PutMerges(src, l, o.st, w, i);
      assert l + p.events == log + (o.events + p.events);
      if p.good {
        var c := ClosePhase(p.st, w, i);
        MergesSnoc(l + p.events, p.st, c.events[0], c.st);
        assert l + p.events + c.events == log + (o.events + p.events + c.events);
      }
    }
  }

  lemma OpenMerges(log: seq<Event>, st: Store, w: Round, i: nat)
    requires Merges(log, st)
    ensures var o := OpenPhase(st, w, i); Merges(log + o.events, o.st)
  {
    var o := OpenPhase(st, w, i);
    if o.events == [] {
      assert log + o.events == log;
    } else {
      MergesSnoc(log, st, o.events[0], o.st);
    }
  }

  lemma PutMerges(src: Source, log: seq<Event>, st: Store, w: Round, i: nat)
    requires Merges(log, st)
    ensures var p := PutPhase(src, st, w, i); Merges(log + p.events, p.st)
  {
    var p := PutPhase(src, st, w, i);
    if p.events == [] {
      assert log + p.events == log;
    } else {
      MergesSnoc(log, st, p.events[0], p.st);
    }
  }

  lemma {:induction false} RunMerges(src: Source, log: seq<Event>, st: Store, world: nat -> Round, i: nat, max: int)
    requires Merges(log, st)
    ensures exists st' :: Merges(log + RunStore(src, st, world, i, max).1, st')
    decreases max - i
  {
    hide Merges, RunRound;
    if i >= max {
      assert log + [] == log;
      assert Merges(log + RunStore(src, st, world, i, max).1, st);
    } else {
      var r := RunRound(src, st, world(i), i);
      RoundMerges(src, log, st, world(i), i);
      if !r.good && !r.aborted {
        RunMerges(src, log + r.events, r.st, world, i + 1, max);
        var rest := RunStore(src, r.st, world, i + 1, max).1;
        assert log + r.events + rest == log + (r.events + rest);
        var st' :| Merges(log + r.events + rest, st');
        assert Merges(log + RunStore(src, st, world, i, max).1, st');
      } else {
        assert Merges(log + RunStore(src, st, world, i, max).1, r.st);
      }
    }
  }

  /** The value is the one given for the field by the last reply that names it. */
  predicate Comes(replies: seq<Fields>, field: string, value: string) {
    var p := Latest(replies, field);
    p >= 0 && replies[p][field] == value
  }

  /** The log of a run from the start. */
  function LogOf(src: Source, world: nat -> Round, max: int): seq<Event> {
    RunStore(src, Initial(src), world, 0, max).1
  }

  lemma OpensAreMerged(src: Source, world: nat -> Round, max: int, j: nat)
    requires j < |LogOf(src, world, max)| && LogOf(src, world, max)[j].Opened?
    ensures var log := LogOf(src, world, max); log[j].result == MergeInto(map[], AllReplies(log[..j + 1]))
  {
    var log := LogOf(src, world, max);
    RunMerges(src, [], Initial(src), world, 0, max);
    assert [] + log == log;
  }

  /** All that trackers had answered when create_close k's create_open looked its fields up, its own answers last. */
  function Seen(log: seq<Event>, k: nat): seq<Fields>
    requires k <= |log|
  {
    AllReplies(log[..LastOpen(log[..k]) + 1])
  }

  /**
   Main result: over every run, which reply each field of each create_close comes
   from.  Up to the last create_open before it, which is good, it is the last
   reply of any tracker that names the field, rejected replies included.
   */
  lemma TripleProvenance(src: Source, world: nat -> Round, max: int, k: nat)
    requires k < |LogOf(src, world, max)| && LogOf(src, world, max)[k].Closed?
    ensures var log := LogOf(src, world, max); var j, seen := LastOpen(log[..k]), Seen(log, k);
      && 0 <= j < k && log[j].good && log[k].round - 1 <= log[j].round <= log[k].round
      && Comes(seen, "path", log[k].path) && Comes(seen, "fid", log[k].fid) && Comes(seen, "devid", log[k].devid)
  {
    hide RunStore, MergeInto, LastOpen, Latest, AllReplies;
    var log := LogOf(src, world, max);
    ClosesAreJustified(src, world, max);
    assert Justified(src, log, k);
    var j := LastOpen(log[..k]);
    assert log[j] == log[..k][j] && Gave(log[j], log[k].path, log[k].fid, log[k].devid);
    assert log[..k][..j + 1] == log[..j + 1];
    OpensAreMerged(src, world, max, j);
    var seen := Seen(log, k);
    MergedField(seen, "path");
    MergedField(seen, "fid");
    MergedField(seen, "devid");
  }

  /** Which replies the three fields of the hash come from. */
  function Origins(replies: seq<Fields>): (o: (int, int, int)) {
    (Latest(replies, "path"), Latest(replies, "fid"), Latest(replies, "devid"))
  }

  /** The answer a call ended with, the accepted one of a good create_open. */
  function OwnAnswer(e: Event): Fields {
    if RepliesOf(e) == [] then map[] else RepliesOf(e)[|RepliesOf(e)| - 1]
  }

  lemma AnswerIsLastSeen(log: seq<Event>, j: nat)
    requires j < |log| && RepliesOf(log[j]) != []
    ensures var seen := AllReplies(log[..j + 1]); seen != [] && seen[|seen| - 1] == OwnAnswer(log[j])
  {
    assert log[..j + 1] == log[..j] + [log[j]];
    RepliesSnoc(log[..j], log[j]);
  }

  /**
   A create_close carries the three fields of the answer its create_open ended
   with if and only if that one answer named all three.
   */
  lemma TripleIsOwnIff(src: Source, world: nat -> Round, max: int, k: nat)
    requires k < |LogOf(src, world, max)| && LogOf(src, world, max)[k].Closed?
    ensures var log := LogOf(src, world, max); var j, seen := LastOpen(log[..k]), Seen(log, k);
      && 0 <= j < k && log[j].good
      && var last, own := |seen| - 1, OwnAnswer(log[j]);
         && (log[j].replies != [] && Origins(seen) == (last, last, last) <==> HasTriple(own))
         && (HasTriple(own) ==> log[k].path == own["path"] && log[k].fid == own["fid"] && log[k].devid == own["devid"])
  {
    hide RunStore, LastOpen, Latest, AllReplies;
    TripleProvenance(src, world, max, k);
    var log := LogOf(src, world, max);
    var j := LastOpen(log[..k]);
    if log[j].replies != [] {
      AnswerIsLastSeen(log, j);
    }
  }

  /** When every good create_open ended with an answer of all three fields, each create_close returns such an answer. */
  lemma FullRepliesAreReturned(src: Source, world: nat -> Round, max: int)
    requires var log := LogOf(src, world, max);
      forall m :: 0 <= m < |log| && log[m].Opened? && log[m].good ==> HasTriple(OwnAnswer(log[m]))
    ensures var log := LogOf(src, world, max);
      forall k :: 0 <= k < |log| && log[k].Closed? ==> ReturnsAnswer(log, k)
  {
    hide RunStore, LastOpen, Latest, HasTriple, AllReplies, OwnAnswer;
    var log := LogOf(src, world, max);
    forall k | 0 <= k < |log| && log[k].Closed? ensures ReturnsAnswer(log, k) {
      TripleIsOwnIff(src, world, max, k);
      var j := LastOpen(log[..k]);
      assert log[j] == log[..k][j];
    }
  }

  /** The triple of create_close k is that of the answer the last create_open before it ended with. */
  predicate ReturnsAnswer(log: seq<Event>, k: nat)
    requires k < |log| && log[k].Closed?
  {
    var j := LastOpen(log[..k]);
    && j >= 0
    && var own := OwnAnswer(log[j]);
       && HasTriple(own)
       && log[k].path == own["path"] && log[k].fid == own["fid"] && log[k].devid == own["devid"]
  }

  /** The last reply that names any of the three fields. */
  function LatestOfAny(replies: seq<Fields>): (p: int)
    ensures -1 <= p < |replies|
    ensures p >= 0 ==> "path" in replies[p] || "fid" in replies[p] || "devid" in replies[p]
    ensures forall m :: p < m < |replies| ==>
      "path" !in replies[m] && "fid" !in replies[m] && "devid" !in replies[m]
  {
    var (a, b, c) := Origins(replies);
    if a >= b && a >= c then a else if b >= c then b else c
  }

  /**
   The three fields of a create_close come from one tracker's reply if and only if
   the last reply that named any of them named all of them; otherwise they are mixed.
   */
  lemma TripleIsOneReplysIff(src: Source, world: nat -> Round, max: int, k: nat)
    requires k < |LogOf(src, world, max)| && LogOf(src, world, max)[k].Closed?
    ensures var log := LogOf(src, world, max); var seen := Seen(log, k); var q := LatestOfAny(seen);
      && 0 <= q
      && ((exists p :: Origins(seen) == (p, p, p)) <==> HasTriple(seen[q]))
      && (HasTriple(seen[q]) ==>
            log[k].path == seen[q]["path"] && log[k].fid == seen[q]["fid"] && log[k].devid == seen[q]["devid"])
  {
    hide RunStore, LastOpen, Latest, AllReplies;
    TripleProvenance(src, world, max, k);
    var seen := Seen(LogOf(src, world, max), k);
    var q := LatestOfAny(seen);
    if HasTriple(seen[q]) {
      assert Origins(seen) == (q, q, q);
    }
  }

  /**
   Mixing takes no second attempt: when a first tracker's reply names path and fid
   and is then rejected, and the tracker asked next names only devid, the run
   succeeds with path and fid of the one and devid of the other.
   */
  lemma OneCallMixes(src: Source, world: nat -> Round, max: int, path: string, fid: string, devid: string)
    requires max > 0 && world(0).openReplies == [map["path" := path, "fid" := fid], map["devid" := devid]]
    requires Cooperative(src, world(0).(openReplies := [map["path" := path, "fid" := fid, "devid" := devid]]))
    ensures var r := RunStore(src, Initial(src), world, 0, max); var log := r.1;
      && r.0 && |log| == 3 && log[2].Closed? && log[2].acked
      && log[2].path == path && log[2].fid == fid && log[2].devid == devid
      && Seen(log, 2) == world(0).openReplies && Origins(Seen(log, 2)) == (0, 0, 1)
  {
    var w, one, two := world(0), map["path" := path, "fid" := fid], map["devid" := devid];
    MergeTwo(one, two);
    assert one + two == map["path" := path, "fid" := fid, "devid" := devid];
    MergeOne(one + two);
    hide MergeInto, Asked;
    CooperativeRunSucceeds(src, world, max);
    var log := RunStore(src, Initial(src), world, 0, max).1;
    hide *;
    SeenFirst(log);
    LatestOfTwo(one, two);
  }

  lemma MergeOne(d: Fields)
    ensures MergeInto(map[], [d]) == d
  {
    assert [d][..0] == [] && map[] + d == d;
  }

  lemma SeenFirst(log: seq<Event>)
    requires |log| >= 2 && log[0].Opened? && log[1].Put?
    ensures Seen(log, 2) == log[0].replies
  {
    assert log[..2][..1] == [log[0]] && log[..1] == [log[0]];
    RepliesSnoc([], log[0]);
    assert [] + [log[0]] == [log[0]];
  }

  lemma MergeTwo(one: Fields, two: Fields)
    ensures MergeInto(map[], [one, two]) == one + two
  {
    assert [one, two][..1] == [one] && [one][..0] == [];
    assert MergeInto(map[], [one]) == map[] + one == one;
  }

  lemma LatestOfTwo(one: Fields, two: Fields)
    requires "path" in one && "fid" in one && "devid" !in one && "path" !in two && "fid" !in two && "devid" in two
    ensures Origins([one, two]) == (0, 0, 1)
  {
    var both := [one, two];
    assert both[0] == one && both[1] == two;
  }

  // --------------------------------------------------------------- methods

  /** mfs_read_buffer, and the open file, which reads the same way. */
  class ReadBuffer {
    const buffer: seq<byte>
    var pos: nat

    ghost predicate Valid()
      reads this
    {
      pos <= |buffer|
    }

    constructor (buffer: seq<byte>)
      ensures Valid() && this.buffer == buffer && pos == 0
    {
      this.buffer, pos := buffer, 0;
    }

    /** mfs_buffer_put_read_callback: the next bytes in order, and 0 only at the end. */
    method Read(asked: nat) returns (chunk: seq<byte>)
      requires Valid()
      modifies this`pos
      ensures Valid() && pos == old(pos) + |chunk| && chunk == buffer[old(pos)..pos]
      ensures |chunk| == Min(asked, |buffer| - old(pos))
      ensures asked > 0 ==> (chunk == [] <==> old(pos) == |buffer|)
    {
      var remaining := |buffer| - pos;
      if remaining == 0 {
        return [];
      }
      var n := if remaining > asked then asked else remaining;
      chunk := buffer[pos..pos + n];
      pos := pos + n;
    }
  }

  /** How many bytes the next callback hands over; 0 ends the transfer. */
  function Step(src: Source, pos: nat, size: nat, ask: Ask): nat
    requires pos <= |src.content|
  {
    if pos >= size || (src.FromFile? && ask.fails) then 0 else Min(ask.size, |src.content| - pos)
  }

  lemma SuppliedStep(src: Source, pos: nat, size: nat, asks: seq<Ask>, k: nat)
    requires pos <= |src.content| && k < |asks|
    ensures var n := Step(src, pos, size, asks[k]);
      Supplied(src, pos, size, asks[k..]) == if n == 0 then pos else Supplied(src, pos + n, size, asks[k + 1..])
  {
    assert asks[k..][0] == asks[k] && asks[k..][1..] == asks[k + 1..];
  }

  /** cURL's side of a PUT: ask until the announced size is supplied, a read fails, or nothing more comes. */
  method Transmit(src: Source, size: nat, asks: seq<Ask>) returns (sent: seq<byte>)
    ensures sent == src.content[..Supplied(src, 0, size, asks)]
  {
    var b := new ReadBuffer(src.content);
    sent := [];
    var k, more := 0, true;
    assert asks[0..] == asks;
    hide Supplied, Min;
    while more && k < |asks|
      invariant b.Valid() && b.buffer == src.content && 0 <= k <= |asks|
      invariant sent == src.content[..b.pos]
      invariant Supplied(src, 0, size, asks) == if more then Supplied(src, b.pos, size, asks[k..]) else b.pos
      decreases |asks| - k, more
    {
      SuppliedStep(src, b.pos, size, asks, k);
      if b.pos >= size || (src.FromFile? && asks[k].fails) {
        more := false;
      } else {
        ghost var before := b.pos;
        var chunk := b.Read(asks[k].size);
        assert src.content[..b.pos] == src.content[..before] + chunk;
        sent := sent + chunk;
        more := chunk != [];
        k := k + 1;
      }
    }
    SuppliedNoMore(src, b.pos, size, asks[k..]);
  }

  lemma SuppliedNoMore(src: Source, pos: nat, size: nat, asks: seq<Ask>)
    requires pos <= |src.content|
    ensures asks == [] ==> Supplied(src, pos, size, asks) == pos
  {
  }

  /** mfs_file_server_put: resolves the size, then transmits. */
  method ServerPut(src: Source, size: int, w: Round) returns (good: bool, size': int, sent: seq<byte>)
    ensures good == PutGood(src, size, w) && size' == ResolvedSize(src, size, w) && sent == PutSent(src, size, w)
  {
    size', sent, good := size, [], false;
    if !w.connected {
      return;
    }
    if src.FromFile? && size == -1 {
      if !w.statOk {
        return;
      }
      size' := |src.content|;
    }
    if size' >= 0 {
      sent := Transmit(src, size', w.asks);
      good := w.stored && |sent| == size';
    }
  }

  /** The create_open part of an attempt: the hash is merged and the fields are looked up one by one. */
  method CallOpen(st: Store, w: Round) returns (ok: bool, st': Store)
    ensures st' == AfterOpen(st, w) && ok == OpenGood(st, w)
  {
    var callTracker, putUrl, fid, devid := st.callTracker, st.putUrl, st.fid, st.devid;
    var result := MergeInto(st.result, w.openReplies);
    ok := false;
    if w.openSent && w.openOk {
      if "path" in result {
        putUrl := result["path"];
        if "fid" in result {
          fid := result["fid"];
          if "devid" in result {
            devid := result["devid"];
            callTracker := false;
            ok := true;
          }
        }
      }
    }
    st' := Store(callTracker, putUrl, fid, devid, result, st.size);
  }

  /** The body of the retry loop; `aborted` is its early return when the file cannot be rewound. */
  method Attempt(src: Source, st0: Store, w: Round, i: nat)
    returns (st: Store, ok: bool, aborted: bool, events: seq<Event>)
    ensures RoundResult(st, ok, aborted, events) == RunRound(src, st0, w, i)
    ensures aborted ==> !ok
  {
    hide PutGood, PutSent, ResolvedSize, AfterOpen, OpenGood;
    st, ok, aborted, events := st0, true, false, [];
    if st.callTracker {
      ok, st := CallOpen(st, w);
      events := [Opened(i, ok, w.openReplies, MergeInto(st0.result, w.openReplies))];
    } else {
      st := st.(callTracker := true);
    }
    if !ok {
      return;
    }
    if !w.uriOk {
      ok := false;
      return;
    }
    if src.FromFile? && !w.seekOk {
      return st, false, true, events;
    }
    var sent, size;
    ok, size, sent := ServerPut(src, st.size, w);
    st := st.(size := size);
    events := events + [Put(i, st.putUrl, ok, sent)];
    if ok {
      ok := w.closeSent && w.closeOk;
      events := events + [Closed(i, st.putUrl, st.fid, st.devid, st.size, ok, w.closeReplies)];
      st := st.(result := MergeInto(st.result, w.closeReplies));
    }
  }

  /** mfs_store_file_or_bytes. */
  method StoreFileOrBytes(src: Source, world: nat -> Round, maxRetries: int) returns (ok: bool, log: seq<Event>)
    ensures (ok, log) == RunStore(src, Initial(src), world, 0, maxRetries)
    ensures Story(src, world, log, 0, maxRetries, false, ok)
  {
    hide RunRound, Story;
    RunTellsStory(src, Initial(src), world, 0, maxRetries);
    var attemptCount, st := 0, Initial(src);
    ok, log := false, [];
    ghost var run := RunStore(src, st, world, 0, maxRetries);
    assert log + run.1 == run.1;
    while attemptCount < maxRetries && !ok
      invariant 0 <= attemptCount
      invariant ok ==> run == (true, log)
      invariant !ok ==> var rest := RunStore(src, st, world, attemptCount, maxRetries);
        run.0 == rest.0 && run.1 == log + rest.1
      decreases maxRetries - attemptCount
    {
      ghost var was := log;
      var aborted, events;
      st, ok, aborted, events := Attempt(src, st, world(attemptCount), attemptCount);
      log := log + events;
      if aborted {
        return false, log;
      }
      ghost var rest := RunStore(src, st, world, attemptCount + 1, maxRetries).1;
      assert was + (events + rest) == log + rest;
      attemptCount := attemptCount + 1;
    }
    assert log + [] == log;
  }

  // ----------------------------------------------------- the stale triple

  /** Nothing listens on the file server in the first two attempts; the third tracker reply lacks fid and devid. */
  function StaleWorld(): nat -> Round {
    (i: nat) =>
      if i < 2 then
        Round(true, true, [map["path" := "p1", "fid" := "1", "devid" := "10"]], true, true, false, true, [], true,
              true, true, [])
      else
        Round(true, true, [map["path" := "p2"]], true, true, true, true, [Ask(1, false)], true, true, true, [])
  }

  /**
   A concrete run whose create_close mixes two replies: the path of the third
   attempt's create_open with the fid and devid of the first one's.
   */
  lemma StaleFieldsAreSent()
    ensures var src := Bytes([7]);
      var r := RunStore(src, Initial(src), StaleWorld(), 0, 3);
      r.0 && r.1 != [] && r.1[|r.1| - 1] == Closed(2, "p2", "1", "10", 1, true, [])
  {
    hide RunRound;
    var src, world := Bytes([7]), StaleWorld();
    var hash := map["path" := "p1", "fid" := "1", "devid" := "10"];
    var st1 := Store(false, "p1", "1", "10", hash, 1);
    var st2 := st1.(callTracker := true);
    FirstFails(src, world(0));
    SecondFails(src, st1, world(1));
    ThirdMixes(src, st2, world(2));
    var r2 := RunStore(src, st2, world, 2, 3);
    assert r2 == (true, RunRound(src, st2, world(2), 2).events);
    var r1 := RunStore(src, st1, world, 1, 3);
    assert r1 == (r2.0, RunRound(src, st1, world(1), 1).events + r2.1);
  }

  lemma FirstFails(src: Source, w: Round)
    requires src == Bytes([7]) && w == StaleWorld()(0)
    ensures var r := RunRound(src, Initial(src), w, 0);
      && !r.good && !r.aborted
      && r.st == Store(false, "p1", "1", "10", map["path" := "p1", "fid" := "1", "devid" := "10"], 1)
  {
    var d: Fields := map["path" := "p1", "fid" := "1", "devid" := "10"];
    assert map[] + d == d;
    assert d["path"] == "p1" && d["fid"] == "1" && d["devid"] == "10";
  }

  lemma SecondFails(src: Source, st: Store, w: Round)
    requires w == StaleWorld()(1) && !st.callTracker
    ensures var r := RunRound(src, st, w, 1);
      !r.good && !r.aborted && r.st.callTracker && r.st == st.(callTracker := true)
  {
  }

  lemma ThirdMixes(src: Source, st: Store, w: Round)
    requires src == Bytes([7]) && w == StaleWorld()(2) && st.callTracker && st.size == 1
    requires st.result == map["path" := "p1", "fid" := "1", "devid" := "10"]
    ensures var r := RunRound(src, st, w, 2);
      r.good && r.events != [] && r.events[|r.events| - 1] == Closed(2, "p2", "1", "10", 1, true, [])
  {
    var d := MergeInto(st.result, w.openReplies);
    assert d["path"] == "p2" && d["fid"] == "1" && d["devid"] == "10";
    assert Supplied(src, 1, 1, w.asks[1..]) == 1;
    assert Supplied(src, 0, 1, w.asks) == 1;
    assert PutSent(src, 1, w) == [7];
  }
}
