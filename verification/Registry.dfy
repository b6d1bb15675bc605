/**
 The file-server registry of src/file.c: a shared hash filled by double-checked
 insertion under a read-write lock, used by any number of threads.
 */
module Registry {

  type Host = string

  /** A lookup is under way, has missed, or has an answer; creation may fail. */
  datatype Pc =
    | Asking(host: Host)
    | Missed(host: Host)
    | Answered(host: Host, server: nat)
    | Refused(host: Host)

  /** Servers are numbered as they are made; `urls` is the host each was made for. */
  datatype State = State(hash: map<Host, nat>, urls: seq<Host>, threads: seq<Pc>)

  /** A turn: which thread, whether the connection list can be created, and the next lookup when it is done. */
  datatype Turn = Turn(thread: nat, created: bool, next: Host)

  /** What the hash and the record of servers become, and the answer, if any. */
  datatype Section = Section(hash: map<Host, nat>, urls: seq<Host>, answer: Pc)

  /** The write-locked section: look again, and create only if it is still missing. */
  function WriteSection(hash: map<Host, nat>, urls: seq<Host>, h: Host, created: bool): Section {
    if h in hash then Section(hash, urls, Answered(h, hash[h]))
    else if !created then Section(hash, urls, Refused(h))
    else Section(hash[h := |urls|], urls + [h], Answered(h, |urls|))
  }

  function Step(s: State, turn: Turn): State
    requires turn.thread < |s.threads|
  {
    var i := turn.thread;
    match s.threads[i]
    // read-locked section
    case Asking(h) => s.(threads := s.threads[i := if h in s.hash then Answered(h, s.hash[h]) else Missed(h)])
    // write-locked section
    case Missed(h) =>
      var w := WriteSection(s.hash, s.urls, h, turn.created);
      State(w.hash, w.urls, s.threads[i := w.answer])
    case _ => s.(threads := s.threads[i := Asking(turn.next)])
  }

  predicate OnBoard(schedule: seq<Turn>, n: nat) {
    forall k :: 0 <= k < |schedule| ==> schedule[k].thread < n
  }

  function Run(s: State, schedule: seq<Turn>): State
    requires OnBoard(schedule, |s.threads|)
    decreases |schedule|
  {
    if schedule == [] then s else Run(Step(s, schedule[0]), schedule[1..])
  }

  predicate Initial(s: State) {
    s.hash == map[] && s.urls == [] && forall i :: 0 <= i < |s.threads| ==> s.threads[i].Asking?
  }

  /** Every server made is in the hash under its own host, and nothing else is; answers are what the hash says. */
  predicate Consistent(s: State) {
    && (forall h :: h in s.hash ==> s.hash[h] < |s.urls| && s.urls[s.hash[h]] == h)
    && (forall f :: 0 <= f < |s.urls| ==> s.urls[f] in s.hash && s.hash[s.urls[f]] == f)
    && (forall i :: 0 <= i < |s.threads| && s.threads[i].Answered? ==>
          s.threads[i].host in s.hash && s.hash[s.threads[i].host] == s.threads[i].server)
  }

  /** Nothing once registered is replaced or removed. */
  predicate Grows(a: map<Host, nat>, b: map<Host, nat>) {
    forall h :: h in a ==> h in b && b[h] == a[h]
  }

  lemma StepConsistent(s: State, turn: Turn)
    requires Consistent(s) && turn.thread < |s.threads|
    ensures Consistent(Step(s, turn)) && Grows(s.hash, Step(s, turn).hash)
    ensures |Step(s, turn).threads| == |s.threads|
  {
    var s' := Step(s, turn);
    assert forall f :: 0 <= f < |s.urls| ==> s'.urls[f] == s.urls[f];
  }

  lemma {:induction false} RunConsistent(s: State, schedule: seq<Turn>)
    requires Consistent(s) && OnBoard(schedule, |s.threads|)
    ensures Consistent(Run(s, schedule)) && Grows(s.hash, Run(s, schedule).hash)
    ensures |Run(s, schedule).threads| == |s.threads|
    decreases |schedule|
  {
    hide Consistent, Step;
    if schedule != [] {
      StepConsistent(s, schedule[0]);
      RunConsistent(Step(s, schedule[0]), schedule[1..]);
    }
  }

  lemma {:induction false} RunSplits(s: State, a: seq<Turn>, b: seq<Turn>)
    requires OnBoard(a, |s.threads|) && OnBoard(b, |s.threads|) && Consistent(s)
    ensures |Run(s, a).threads| == |s.threads| && OnBoard(a + b, |s.threads|)
    ensures Run(s, a + b) == Run(Run(s, a), b)
    decreases |a|
  {
    hide Consistent, Step;
    RunConsistent(s, a);
    if a == [] {
      assert a + b == b;
    } else {
      StepConsistent(s, a[0]);
      assert (a + b)[0] == a[0] && (a + b)[1..] == a[1..] + b;
      RunSplits(Step(s, a[0]), a[1..], b);
    }
  }

  /** At most one server is ever made for a host, and every server made is registered under its host. */
  lemma OneServerPerHost(s: State, schedule: seq<Turn>)
    requires Initial(s) && OnBoard(schedule, |s.threads|)
    ensures var r := Run(s, schedule);
      && (forall f, g :: 0 <= f < g < |r.urls| ==> r.urls[f] != r.urls[g])
      && (forall f :: 0 <= f < |r.urls| ==> r.urls[f] in r.hash && r.hash[r.urls[f]] == f)
      && (forall h :: h in r.hash ==> r.hash[h] < |r.urls| && r.urls[r.hash[h]] == h)
  {
    RunConsistent(s, schedule);
  }

  /**
   Two answers for the same host, by any threads at any two points of any run,
   are the same server.
   */
  lemma SameHostSameServer(s: State, first: seq<Turn>, later: seq<Turn>, i: nat, j: nat)
    requires Initial(s) && OnBoard(first, |s.threads|) && OnBoard(later, |s.threads|)
    requires i < |s.threads| && j < |s.threads|
    ensures |Run(s, first).threads| == |s.threads| && OnBoard(first + later, |s.threads|)
    ensures |Run(s, first + later).threads| == |s.threads|
    ensures var a, b := Run(s, first).threads[i], Run(s, first + later).threads[j];
      a.Answered? && b.Answered? && a.host == b.host ==> a.server == b.server
  {
    RunConsistent(s, first);
    RunSplits(s, first, later);
    RunConsistent(Run(s, first), later);
  }

  /** A lookup that no other thread disturbs: the registered server, or a new one, or a refusal that changes nothing. */
  lemma UndisturbedLookup(s: State, i: nat, h: Host, created: bool, next: Host)
    requires i < |s.threads| && s.threads[i] == Asking(h)
    ensures var one := Step(s, Turn(i, created, next));
      if h in s.hash then one == s.(threads := s.threads[i := Answered(h, s.hash[h])])
      else
        && |one.threads| == |s.threads|
        && Step(one, Turn(i, created, next)) ==
             if created then State(s.hash[h := |s.urls|], s.urls + [h], s.threads[i := Answered(h, |s.urls|)])
             else s.(threads := s.threads[i := Refused(h)])
  {
    if h !in s.hash {
      var one := Step(s, Turn(i, created, next));
      assert forall server :: one.threads[i := Answered(h, server)] == s.threads[i := Answered(h, server)];
    }
  }

  /** The shared part of mfs_file_system; each method is one locked section. */
  class FileServers {
    var hash: map<Host, nat>
    var urls: seq<Host>

    constructor ()
      ensures hash == map[] && urls == []
    {
      hash, urls := map[], [];
    }

    method ReadLookup(h: Host) returns (answer: Pc)
      ensures answer == if h in hash then Answered(h, hash[h]) else Missed(h)
    {
      answer := if h in hash then Answered(h, hash[h]) else Missed(h);
    }

    method WriteLookup(h: Host, created: bool) returns (answer: Pc)
      modifies this
      ensures Section(hash, urls, answer) == WriteSection(old(hash), old(urls), h, created)
    {
      if h in hash {
        return Answered(h, hash[h]);
      }
      if !created {
        return Refused(h);
      }
      var fs := |urls|;
      urls := urls + [h];
      hash := hash[h := fs];
      answer := Answered(h, fs);
    }

    /** mfs_get_file_server, with no other thread between its two sections. */
    method GetFileServer(h: Host, created: bool) returns (answer: Pc)
      modifies this
      ensures h in old(hash) ==> answer == Answered(h, old(hash)[h]) && hash == old(hash) && urls == old(urls)
      ensures h !in old(hash) && created ==>
        answer == Answered(h, |old(urls)|) && hash == old(hash)[h := |old(urls)|] && urls == old(urls) + [h]
      ensures h !in old(hash) && !created ==> answer == Refused(h) && hash == old(hash) && urls == old(urls)
      ensures answer.Answered? ==> h in hash && hash[h] == answer.server
    {
      answer := ReadLookup(h);
      if answer.Missed? {
        answer := WriteLookup(h, created);
      }
    }
  }
}
