/**
 Printer and parser together (src/tracker.c): what a peer that answers with
 `OK` and a rendered parameter list makes the client store.
 */
module RoundTrip {
  import opened UrlCodec
  import opened Parameters
  import opened RequestLine
  import opened ReplyParser
  import Receive

  // "OK"
  const OK_COMMAND: seq<byte> := [0x4f, 0x4b]
  // "plugin.meta.keys"
  const META_KEYS: seq<byte> :=
    [0x70, 0x6c, 0x75, 0x67, 0x69, 0x6e, 0x2e, 0x6d, 0x65, 0x74, 0x61, 0x2e, 0x6b, 0x65, 0x79, 0x73]

  /** Encoded text only, as every list built through AddParameter holds. */
  predicate Clean(ps: seq<Param>) {
    forall i :: 0 <= i < |ps| ==> !ps[i].raw && AllSafe(ps[i].key) && AllSafe(ps[i].value)
  }

  /** The entries that go on the wire: the metadata count, when there is one, counts as an entry. */
  function Sent(l: ListValue): seq<Param> {
    if l.metaCount > 0 then [Param(META_KEYS, Decimal(l.metaCount), false)] + l.params else l.params
  }

  function BindingOf(p: Param): Binding {
    Binding(p.key, DecodedValue(p.value))
  }

  function Bindings(ps: seq<Param>): (bs: seq<Binding>)
    ensures |bs| == |ps| && forall i :: 0 <= i < |bs| ==> bs[i] == BindingOf(ps[i])
  {
    seq(|ps|, i requires 0 <= i < |ps| => BindingOf(ps[i]))
  }

  function LeadingDigits(key: seq<byte>): (n: nat)
    ensures n <= |key|
  {
    FirstFinds(key, NotSpaceOrDigit);
    First(key, NotSpaceOrDigit)
  }

  /** The parser takes digits at the front of the text for a file id and skips them. */
  function StripFirst(ps: seq<Param>): seq<Param> {
    if ps == [] then []
    else [ps[0].(key := ps[0].key[LeadingDigits(ps[0].key)..])] + ps[1..]
  }

  // ---------------------------------------------------- splitting and join

  lemma SafeBytes(s: seq<byte>)
    requires AllSafe(s)
    ensures forall b :: b in s ==> b !in {AMP, EQ, SPACE, CR, LF, NUL}
  {
  }

  /** An entry is one token, cut off by the separator after it. */
  lemma EntryIsToken(p: Param, rest: seq<byte>)
    requires AllSafe(p.key) && AllSafe(p.value) && (rest != [] ==> rest[0] == AMP)
    ensures NextToken(Entry(p) + rest) == (Entry(p), if rest == [] then [] else rest[1..])
  {
    SafeBytes(p.key);
    SafeBytes(p.value);
    var e := Entry(p);
    var s := e + rest;
    assert forall i :: 0 <= i < |e| ==> e[i] != AMP by {
      forall i | 0 <= i < |e| ensures e[i] != AMP {
        assert e[i] in p.key || e[i] == EQ || e[i] in p.value;
      }
    }
    assert forall i :: 0 <= i < |e| ==> s[i] == e[i];
    FirstUnique(s, NotAmp, 0);
    assert s[0..] == s;
    assert |e| < |s| ==> s[|e|] == rest[0];
    FirstUnique(s, IsAmp, |e|);
    NextTokenIs(s, 0, |e|);
    assert s[0..0 + |e|] == e;
    assert rest != [] ==> s[|e| + 1..] == rest[1..];
  }

  lemma EntrySplits(p: Param, rest: seq<byte>)
    requires AllSafe(p.key)
    ensures SplitToken(Entry(p), rest) ==
      Split([BindingOf(p)] + SplitPairs(rest).bindings, SplitPairs(rest).wellFormed)
  {
    hide DecodedValue, SplitPairs;
    SafeBytes(p.key);
    var e := Entry(p);
    assert forall i :: 0 <= i < |p.key| ==> e[i] == p.key[i];
    FirstUnique(e, IsEq, |p.key|);
    assert e[..|p.key|] == p.key && e[|p.key| + 1..] == p.value;
  }

  /** Splitting a joined list gives its entries back, in order. */
  lemma {:induction false} SplitJoin(ps: seq<Param>)
    requires Clean(ps)
    ensures SplitPairs(Join(ps)) == Split(Bindings(ps), true)
    decreases |ps|
  {
    hide DecodedValue, Entry, NextToken, SplitToken;
    if ps == [] {
      NothingSplits();
      assert Bindings(ps) == [];
    } else {
      var p, tail := ps[0], ps[1..];
      SplitJoin(tail);
      var rest := if tail == [] then [] else [AMP] + Join(tail);
      assert Join(ps) == Entry(p) + rest;
      EntryIsToken(p, rest);
      assert (if rest == [] then [] else rest[1..]) == Join(tail);
      EntryNotEmpty(p);
      EntrySplits(p, Join(tail));
      assert Bindings(ps) == [BindingOf(p)] + Bindings(tail);
    }
  }

  lemma NothingSplits()
    ensures SplitPairs([]) == Split([], true)
  {
  }

  lemma EntryNotEmpty(p: Param)
    ensures Entry(p) != []
  {
  }

  // ------------------------------------------------------------ the reply

  lemma MetaPrefixIsEntry(l: ListValue)
    requires l.params != []
    ensures MetaPrefix(l.metaCount) + Join(l.params) == Join(Sent(l))
  {
    if l.metaCount > 0 {
      var p := Param(META_KEYS, Decimal(l.metaCount), false);
      assert META_KEYS_EQ == META_KEYS + [EQ];
      assert Sent(l)[1..] == l.params && Sent(l)[0] == p;
      assert Join(Sent(l)) == Entry(p) + [AMP] + Join(l.params);
    }
  }

  lemma SentIsClean(l: ListValue)
    requires Clean(l.params)
    ensures Clean(Sent(l))
  {
    DecimalIsDigits(l.metaCount);
  }

  lemma StripJoins(ps: seq<Param>)
    requires ps != []
    ensures var n := LeadingDigits(ps[0].key); n < |Join(ps)| && Join(ps)[n..] == Join(StripFirst(ps))
  {
    hide Join, Entry, LeadingDigits, JoinTail, StripFirst;
    StripFirstParts(ps);
    var key := ps[0].key;
    var n := LeadingDigits(key);
    JoinHead(ps);
    JoinHead(StripFirst(ps));
    var tail := [EQ] + ps[0].value + JoinTail(ps[1..]);
    DropInFront(key, tail, n);
  }

  lemma StripFirstParts(ps: seq<Param>)
    requires ps != []
    ensures var qs, n := StripFirst(ps), LeadingDigits(ps[0].key);
      qs != [] && qs[0].key == ps[0].key[n..] && qs[0].value == ps[0].value && qs[1..] == ps[1..]
  {
  }

  lemma DropKeepsSafe(s: seq<byte>, n: nat)
    requires AllSafe(s) && n <= |s|
    ensures AllSafe(s[n..])
  {
    assert forall k :: 0 <= k < |s[n..]| ==> s[n..][k] == s[n + k];
  }

  lemma StripIsClean(ps: seq<Param>)
    requires Clean(ps)
    ensures Clean(StripFirst(ps))
  {
    hide AllSafe, LeadingDigits;
    if ps != [] {
      DropKeepsSafe(ps[0].key, LeadingDigits(ps[0].key));
      assert forall i :: 1 <= i < |ps| ==> StripFirst(ps)[i] == ps[i];
    }
  }

  lemma DigitsEndInKey(ps: seq<Param>, after: seq<byte>)
    requires ps != []
    ensures First(Join(ps) + after, NotSpaceOrDigit) == LeadingDigits(ps[0].key)
  {
    hide Join, LeadingDigits, First, JoinTail;
    JoinHead(ps);
    var key, tail := ps[0].key, [EQ] + ps[0].value + JoinTail(ps[1..]);
    LeadingDigitsBeforeEq(key, tail + after);
    assert key + tail + after == key + (tail + after);
  }

  /** Skipping digits at the front of the text strips them from the first key and nothing else. */
  lemma StripIsSkip(ps: seq<Param>, after: seq<byte>)
    requires Clean(ps) && ps != []
    ensures var n := LeadingDigits(ps[0].key);
      && n < |Join(ps)|
      && First(Join(ps) + after, NotSpaceOrDigit) == n
      && Join(ps)[n..] == Join(StripFirst(ps))
    ensures Clean(StripFirst(ps))
  {
    hide Join, LeadingDigits, First, StripFirst, Clean;
    StripJoins(ps);
    StripIsClean(ps);
    DigitsEndInKey(ps, after);
  }

  function JoinTail(ps: seq<Param>): seq<byte> {
    if ps == [] then [] else [AMP] + Join(ps)
  }

  lemma JoinIsEntryAndTail(ps: seq<Param>)
    requires ps != []
    ensures Join(ps) == Entry(ps[0]) + JoinTail(ps[1..])
  {
    hide Entry;
  }

  lemma Regroup(a: seq<byte>, b: seq<byte>, c: seq<byte>, d: seq<byte>)
    ensures a + b + c + d == a + (b + c + d)
  {
  }

  lemma DropInFront(a: seq<byte>, b: seq<byte>, n: nat)
    requires n <= |a|
    ensures (a + b)[n..] == a[n..] + b
  {
  }

  lemma JoinHead(ps: seq<Param>)
    requires ps != []
    ensures Join(ps) == ps[0].key + ([EQ] + ps[0].value + JoinTail(ps[1..]))
  {
    hide Join, JoinTail;
    JoinIsEntryAndTail(ps);
    Regroup(ps[0].key, [EQ], ps[0].value, JoinTail(ps[1..]));
  }

  lemma LeadingDigitsBeforeEq(key: seq<byte>, tail: seq<byte>)
    requires tail != [] && tail[0] == EQ
    ensures First(key + tail, NotSpaceOrDigit) == LeadingDigits(key)
  {
    var text := key + tail;
    FirstFinds(key, NotSpaceOrDigit);
    assert text[|key|] == EQ;
    assert forall i :: 0 <= i < |key| ==> text[i] == key[i];
    FirstUnique(text, NotSpaceOrDigit, LeadingDigits(key));
  }

  lemma {:induction false} JoinIsNulFree(ps: seq<Param>)
    requires Clean(ps)
    ensures NUL !in Join(ps) && LF !in Join(ps)
    decreases |ps|
  {
    if ps != [] {
      SafeBytes(ps[0].key);
      SafeBytes(ps[0].value);
      EntryBytes(ps[0]);
      JoinIsNulFree(ps[1..]);
    }
  }

  lemma EntryBytes(p: Param)
    requires NUL !in p.key && NUL !in p.value && LF !in p.key && LF !in p.value
    ensures NUL !in Entry(p) && LF !in Entry(p)
  {
  }

  /** The reply buffer the parser is given: the rendered line with its CR overwritten. */
  function ReplyBuffer(l: ListValue): seq<byte> {
    var line := Render(OK_COMMAND, l);
    line[|line| - 2 := NUL]
  }

  lemma ReplyBufferShape(l: ListValue)
    requires l.params != []
    ensures ReplyBuffer(l) == OK_ + Join(Sent(l)) + [NUL, LF]
    ensures Render(OK_COMMAND, l) == OK_ + Join(Sent(l)) + [CR, LF]
  {
    hide Join, MetaPrefix, Sent;
    MetaPrefixIsEntry(l);
    var text := Join(Sent(l));
    assert Render(OK_COMMAND, l) == OK_COMMAND + [SPACE] + text + [CR, LF];
    assert OK_COMMAND + [SPACE] == OK_;
    assert (OK_ + text + [CR, LF])[|OK_ + text| := NUL] == OK_ + text + [NUL, LF];
  }

  /** The parser reads the text that follows `OK `. */
  lemma ParseOkText(text: seq<byte>, n: nat, r: Dict)
    requires NUL !in text && n <= |text| && First(text + [NUL, LF], NotSpaceOrDigit) == n
    requires SplitPairs(text[n..]).wellFormed
    ensures var b := OK_ + text + [NUL, LF];
      ParseReply(b, |b|, r) == Parsed(true, Bind(r, SplitPairs(text[n..]).bindings))
  {
    hide SplitPairs, Bind, First;
    var b := OK_ + text + [NUL, LF];
    assert b[..3] == OK_;
    assert b[3..|b|] == text + [NUL, LF];
    assert b[3 + n..] == text[n..] + [NUL, LF];
    assert (text[n..] + [NUL, LF])[..|text| - n] == text[n..];
    CStringOf(b[3 + n..], |text| - n);
  }

  /**
   The round trip, for every list of encoded parameters: the reply is accepted
   and binds every key to the decoded value, except that digits at the front
   of the first key are lost.
   */
  lemma PrintThenParse(l: ListValue, r: Dict)
    requires Clean(l.params) && l.params != []
    ensures ParseReply(ReplyBuffer(l), |ReplyBuffer(l)|, r) == Parsed(true, Bind(r, Bindings(StripFirst(Sent(l)))))
  {
    hide SplitPairs, Bind, Join, Bindings, StripFirst;
    var ps := Sent(l);
    SentIsClean(l);
    ReplyBufferShape(l);
    StripIsSkip(ps, [NUL, LF]);
    JoinIsNulFree(ps);
    SplitJoin(StripFirst(ps));
    ParseOkText(Join(ps), LeadingDigits(ps[0].key), r);
  }

  /**
   The file id: any run of spaces and digits in front of the parameters is
   skipped, and with it the digits the first key starts with.
   */
  lemma FileIdIsSkipped(id: seq<byte>, ps: seq<Param>, r: Dict)
    requires forall c :: c in id ==> c == 0x20 || 0x30 <= c <= 0x39
    requires Clean(ps) && ps != []
    ensures var b := OK_ + (id + Join(ps)) + [NUL, LF];
      ParseReply(b, |b|, r) == Parsed(true, Bind(r, Bindings(StripFirst(ps))))
  {
    hide *;
    var end, n := [NUL, LF], LeadingDigits(ps[0].key);
    StripIsSkip(ps, end);
    SplitJoin(StripFirst(ps));
    JoinIsNulFree(ps);
    IdInFront(id, Join(ps), n);
    ParseOkText(id + Join(ps), |id| + n, r);
  }

  /** So after a file id every key that does not start with a digit arrives whole, and so do all later ones. */
  lemma KeysAfterFileId(id: seq<byte>, ps: seq<Param>, r: Dict)
    requires forall c :: c in id ==> c == 0x20 || 0x30 <= c <= 0x39
    requires Clean(ps) && ps != [] && (ps[0].key == [] || !(0x30 <= ps[0].key[0] <= 0x39))
    ensures var b := OK_ + (id + Join(ps)) + [NUL, LF];
      ParseReply(b, |b|, r) == Parsed(true, Bind(r, Bindings(ps)))
  {
    FileIdIsSkipped(id, ps, r);
    hide ParseReply, Bind, Join, Bindings, StripFirst, Clean;
    StripKeepsIff(ps);
  }

  lemma IdInFront(id: seq<byte>, text: seq<byte>, n: nat)
    requires forall c :: c in id ==> c == 0x20 || 0x30 <= c <= 0x39
    requires n <= |text| && First(text + [NUL, LF], NotSpaceOrDigit) == n && NUL !in text
    ensures First(id + text + [NUL, LF], NotSpaceOrDigit) == |id| + n
    ensures (id + text)[|id| + n..] == text[n..] && NUL !in id + text
  {
    SkipsAll(id, text + [NUL, LF], |id| + n);
    assert id + text + [NUL, LF] == id + (text + [NUL, LF]);
  }

  /** An answer without parameters is accepted and changes nothing. */
  lemma EmptyAnswer(id: seq<byte>, r: Dict)
    requires forall c :: c in id ==> c == 0x20 || 0x30 <= c <= 0x39
    ensures var b := OK_ + id + [NUL, LF]; ParseReply(b, |b|, r) == Parsed(true, r)
  {
    hide ParseReply, SplitPairs;
    RunThen([], [NUL, LF], NotSpaceOrDigit);
    assert [] + [NUL, LF] == [NUL, LF] && id + [] == id;
    IdInFront(id, [], 0);
    NothingSplits();
    ParseOkText(id, |id|, r);
  }

  lemma RunThen(run: seq<byte>, rest: seq<byte>, stop: byte -> bool)
    requires (forall c :: c in run ==> !stop(c)) && rest != [] && stop(rest[0])
    ensures First(run + rest, stop) == |run|
  {
    var s := run + rest;
    forall i | 0 <= i < |run| ensures !stop(s[i]) {
      assert s[i] == run[i];
    }
    FirstUnique(s, stop, |run|);
  }

  lemma SkipsAll(id: seq<byte>, rest: seq<byte>, n: nat)
    requires forall c :: c in id ==> c == 0x20 || 0x30 <= c <= 0x39
    requires |id| <= n <= |id + rest| && First(rest, NotSpaceOrDigit) == n - |id|
    ensures First(id + rest, NotSpaceOrDigit) == n
  {
    FirstFinds(rest, NotSpaceOrDigit);
    var s := id + rest;
    forall i | 0 <= i < n ensures !NotSpaceOrDigit(s[i]) {
      assert i < |id| ==> s[i] == id[i] && id[i] in id;
      assert i >= |id| ==> s[i] == rest[i - |id|];
    }
    assert n < |s| ==> s[n] == rest[n - |id|];
    FirstUnique(s, NotSpaceOrDigit, n);
  }

  // ------------------------------------------------ a reply that is rejected

  /** A rendered list with one more pair behind it that lacks its `=`. */
  function Spoiled(ps: seq<Param>, bad: seq<byte>): seq<byte> {
    if ps == [] then bad else Join(ps) + [AMP] + bad
  }

  lemma BadPairStops(bad: seq<byte>)
    requires bad != [] && AllSafe(bad)
    ensures SplitPairs(bad) == Split([], false)
  {
    SafeBytes(bad);
    assert forall i :: 0 <= i < |bad| ==> bad[i] in bad;
    FirstUnique(bad, NotAmp, 0);
    assert bad[0..] == bad && bad[..|bad|] == bad;
    FirstUnique(bad, IsAmp, |bad|);
    FirstUnique(bad, IsEq, |bad|);
  }

  lemma SpoiledStep(ps: seq<Param>, bad: seq<byte>)
    requires ps != []
    ensures Spoiled(ps, bad) == Entry(ps[0]) + ([AMP] + Spoiled(ps[1..], bad))
  {
    hide Entry;
    if |ps| == 1 {
      assert ps[1..] == [];
    }
  }

  lemma {:induction false} SplitSpoiled(ps: seq<Param>, bad: seq<byte>)
    requires Clean(ps) && bad != [] && AllSafe(bad)
    ensures SplitPairs(Spoiled(ps, bad)) == Split(Bindings(ps), false)
    decreases |ps|
  {
    hide DecodedValue, Entry, NextToken, SplitToken, Spoiled;
    if ps == [] {
      BadPairStops(bad);
      SpoiledNothing(bad);
    } else {
      var p, tail := ps[0], ps[1..];
      SplitSpoiled(tail, bad);
      var rest := [AMP] + Spoiled(tail, bad);
      SpoiledStep(ps, bad);
      EntryIsToken(p, rest);
      assert rest[1..] == Spoiled(tail, bad);
      EntryNotEmpty(p);
      EntrySplits(p, Spoiled(tail, bad));
      assert Bindings(ps) == [BindingOf(p)] + Bindings(tail);
    }
  }

  lemma SpoiledNothing(bad: seq<byte>)
    ensures Spoiled([], bad) == bad
  {
  }

  lemma ParseBadText(text: seq<byte>, n: nat, r: Dict)
    requires NUL !in text && n < |text| && First(text + [NUL, LF], NotSpaceOrDigit) == n
    requires !SplitPairs(text[n..]).wellFormed
    ensures var b := OK_ + text + [NUL, LF];
      ParseReply(b, |b|, r) == Malformed(Bind(r, SplitPairs(text[n..]).bindings))
  {
    hide SplitPairs, Bind, First;
    var b := OK_ + text + [NUL, LF];
    assert b[..3] == OK_;
    assert b[3..|b|] == text + [NUL, LF];
    assert b[3 + n..] == text[n..] + [NUL, LF];
    assert (text[n..] + [NUL, LF])[..|text| - n] == text[n..];
    CStringOf(b[3 + n..], |text| - n);
  }

  /** A reply with a bad pair is rejected, but all the pairs in front of it are in the hash by then. */
  lemma RejectedReplyIsKept(ps: seq<Param>, bad: seq<byte>, r: Dict)
    requires Clean(ps) && ps != [] && bad != [] && AllSafe(bad)
    ensures var b := OK_ + (Join(ps) + [AMP] + bad) + [NUL, LF];
      ParseReply(b, |b|, r) == Malformed(Bind(r, Bindings(StripFirst(ps))))
  {
    hide SplitPairs, Bind, Join, Bindings, StripFirst, First, ParseReply, LeadingDigits;
    var after := [AMP] + bad + [NUL, LF];
    var text, n := Join(ps) + [AMP] + bad, LeadingDigits(ps[0].key);
    StripIsSkip(ps, after);
    assert text + [NUL, LF] == Join(ps) + after;
    JoinIsNulFree(ps);
    SafeBytes(bad);
    StripFirstParts(ps);
    assert text[n..] == Spoiled(StripFirst(ps), bad);
    SplitSpoiled(StripFirst(ps), bad);
    ParseBadText(text, n, r);
  }

  // ------------------------------------------ original keys and values

  function EncodeAll(kvs: seq<Binding>): (ps: seq<Param>)
    ensures |ps| == |kvs| && forall i :: 0 <= i < |ps| ==> ps[i] == Encoded(kvs[i].key, kvs[i].value)
  {
    seq(|kvs|, i requires 0 <= i < |kvs| => Encoded(kvs[i].key, kvs[i].value))
  }

  /** Encoded key, original value: what a caller expects to find in the result hash. */
  function Expected(kvs: seq<Binding>): (bs: seq<Binding>)
    ensures |bs| == |kvs| && forall i :: 0 <= i < |bs| ==> bs[i] == Binding(Encode(kvs[i].key), kvs[i].value)
  {
    seq(|kvs|, i requires 0 <= i < |kvs| => Binding(Encode(kvs[i].key), kvs[i].value))
  }

  predicate DigitFirst(key: seq<byte>) {
    key != [] && IsDigit(key[0])
  }

  lemma EncodeAllIsClean(kvs: seq<Binding>)
    ensures Clean(EncodeAll(kvs))
  {
    hide Encode;
    forall i | 0 <= i < |kvs| ensures AllSafe(Encode(kvs[i].key)) && AllSafe(Encode(kvs[i].value)) {
      EncodeIsSafe(kvs[i].key);
      EncodeIsSafe(kvs[i].value);
    }
  }

  lemma DecodedValueOfEncoded(v: seq<byte>)
    requires NulFree(v)
    ensures DecodedValue(Encode(v)) == v
  {
    DecodeEncode(v);
    assert v[..|v|] == v;
    CStringOf(v, |v|);
  }

  lemma BindingsAreExpected(kvs: seq<Binding>)
    requires forall i :: 0 <= i < |kvs| ==> NulFree(kvs[i].value)
    ensures Bindings(EncodeAll(kvs)) == Expected(kvs)
  {
    hide Encode, DecodedValue;
    forall i | 0 <= i < |kvs| ensures Bindings(EncodeAll(kvs))[i] == Expected(kvs)[i] {
      DecodedValueOfEncoded(kvs[i].value);
    }
  }

  lemma StripKeepsIff(ps: seq<Param>)
    requires Clean(ps) && ps != []
    ensures Bindings(StripFirst(ps)) == Bindings(ps) <==> !DigitFirst(ps[0].key)
  {
    hide DecodedValue;
    var key := ps[0].key;
    FirstFinds(key, NotSpaceOrDigit);
    var n := LeadingDigits(key);
    assert DigitFirst(key) <==> n > 0;
    var qs := StripFirst(ps);
    assert Bindings(qs)[0].key == key[n..];
    if n == 0 {
      assert key[0..] == key;
      assert qs == ps;
    } else {
      assert Bindings(ps)[0].key == key && |key[n..]| < |key|;
    }
  }

  predicate Binds(bs: seq<Binding>, k: seq<byte>) {
    exists i :: 0 <= i < |bs| && bs[i].key == k
  }

  /** What is bound again later makes no difference. */
  lemma {:induction false} BindAbsorbs(r: Dict, bs: seq<Binding>, k: seq<byte>, v: seq<byte>)
    requires Binds(bs, k)
    ensures Bind(r[k := v], bs) == Bind(r, bs)
    decreases |bs|
  {
    var b, rest := bs[0], bs[1..];
    if b.key == k {
      assert r[k := v][k := b.value] == r[k := b.value];
    } else {
      assert Binds(rest, k) by {
        var i :| 0 <= i < |bs| && bs[i].key == k;
        assert rest[i - 1] == bs[i];
      }
      assert r[k := v][b.key := b.value] == r[b.key := b.value][k := v];
      BindAbsorbs(r[b.key := b.value], rest, k, v);
    }
  }

  lemma BindTwo(r: Dict, b: Binding, rest: seq<Binding>)
    ensures Bind(r, [b] + rest) == Bind(r[b.key := b.value], rest)
  {
    assert ([b] + rest)[1..] == rest;
  }

  /**
   A first binding under another key gives the same hash, whatever the hash was,
   if and only if both keys are bound again later.
   */
  lemma FirstBindingIsIrrelevantIff(a: Binding, b: Binding, rest: seq<Binding>)
    requires a.key != b.key
    ensures (forall r: Dict :: Bind(r, [a] + rest) == Bind(r, [b] + rest)) <==> Binds(rest, a.key) && Binds(rest, b.key)
  {
    hide Bind;
    if Binds(rest, a.key) && Binds(rest, b.key) {
      forall r: Dict ensures Bind(r, [a] + rest) == Bind(r, [b] + rest) {
        BindTwo(r, a, rest);
        BindTwo(r, b, rest);
        BindAbsorbs(r, rest, a.key, a.value);
        BindAbsorbs(r, rest, b.key, b.value);
      }
    } else if !Binds(rest, a.key) {
      OnlyOneBinds(a, b, rest);
    } else {
      OnlyOneBinds(b, a, rest);
    }
  }

  lemma OnlyOneBinds(a: Binding, b: Binding, rest: seq<Binding>)
    requires a.key != b.key && !Binds(rest, a.key)
    ensures Bind(map[], [a] + rest) != Bind(map[], [b] + rest)
  {
    BindTwo(map[], a, rest);
    BindTwo(map[], b, rest);
    BindKeepsOthers(map[a.key := a.value], rest, a.key);
    BindKeepsOthers(map[b.key := b.value], rest, a.key);
  }

  /** The later keys make up for the digits the first one loses. */
  predicate Intact(kvs: seq<Binding>)
    requires kvs != []
  {
    var k0 := Encode(kvs[0].key);
    DigitFirst(k0) ==>
      && (exists j :: 0 < j < |kvs| && kvs[j].key == kvs[0].key)
      && (exists j :: 0 < j < |kvs| && Encode(kvs[j].key) == k0[LeadingDigits(k0)..])
  }

  /**
   For every non-empty list of NUL-free keys and values without metadata: every
   result hash ends up with the last original value under each encoded key if and
   only if the first encoded key does not begin with a digit, or it and what is
   left of it without its leading digits are both given again later.
   */
  lemma RoundTripIff(kvs: seq<Binding>)
    requires kvs != [] && forall i :: 0 <= i < |kvs| ==> NulFree(kvs[i].value)
    ensures var b := ReplyBuffer(ListValue(EncodeAll(kvs), 0));
      (forall r: Dict :: ParseReply(b, |b|, r) == Parsed(true, Bind(r, Expected(kvs)))) <==> Intact(kvs)
  {
    hide Encode, DecodedValue, ParseReply, Bind, ReplyBuffer, Intact;
    var l := ListValue(EncodeAll(kvs), 0);
    var b := ReplyBuffer(l);
    EncodeAllIsClean(kvs);
    var bound := Bindings(StripFirst(l.params));
    forall r: Dict ensures ParseReply(b, |b|, r) == Parsed(true, Bind(r, bound)) {
      PrintThenParse(l, r);
    }
    BoundAgreesIff(kvs);
    if Intact(kvs) {
      forall r: Dict ensures ParseReply(b, |b|, r) == Parsed(true, Bind(r, Expected(kvs))) {
        assert Bind(r, bound) == Bind(r, Expected(kvs));
      }
    } else {
      var r: Dict :| Bind(r, bound) != Bind(r, Expected(kvs));
      assert ParseReply(b, |b|, r) != Parsed(true, Bind(r, Expected(kvs)));
    }
  }

  lemma BoundAgreesIff(kvs: seq<Binding>)
    requires kvs != [] && forall i :: 0 <= i < |kvs| ==> NulFree(kvs[i].value)
    ensures (forall r: Dict :: Bind(r, Bindings(StripFirst(EncodeAll(kvs)))) == Bind(r, Expected(kvs))) <==> Intact(kvs)
  {
    hide Encode, DecodedValue, Bind, LeadingDigits;
    var ps, k0 := EncodeAll(kvs), Encode(kvs[0].key);
    EncodeAllIsClean(kvs);
    BindingsAreExpected(kvs);
    StripKeepsIff(ps);
    if DigitFirst(k0) {
      var rest := Expected(kvs)[1..];
      var a, b := Binding(k0[LeadingDigits(k0)..], kvs[0].value), Binding(k0, kvs[0].value);
      FirstLosesDigits(kvs);
      hide Bindings, StripFirst, Expected;
      StripShortens(k0);
      FirstBindingIsIrrelevantIff(a, b, rest);
      LaterKeys(kvs, a.key);
      LaterKeys(kvs, b.key);
      SameEncoding(kvs);
    }
  }

  /** What the parser binds and what is expected differ in the first key alone. */
  lemma FirstLosesDigits(kvs: seq<Binding>)
    requires kvs != [] && forall i :: 0 <= i < |kvs| ==> NulFree(kvs[i].value)
    ensures var k0, v, rest := Encode(kvs[0].key), kvs[0].value, Expected(kvs)[1..];
      && Expected(kvs) == [Binding(k0, v)] + rest
      && Bindings(StripFirst(EncodeAll(kvs))) == [Binding(k0[LeadingDigits(k0)..], v)] + rest
  {
    hide Encode, DecodedValue, LeadingDigits, StripFirst;
    BindingsAreExpected(kvs);
    var ps := EncodeAll(kvs);
    StripFirstParts(ps);
    hide Bindings, Expected;
    var bound, expected := Bindings(StripFirst(ps)), Expected(kvs);
    assert forall i :: 1 <= i < |bound| ==> bound[i] == Bindings(ps)[i];
    assert bound[1..] == expected[1..];
    assert Bindings(ps)[0] == expected[0];
  }

  lemma SameEncoding(kvs: seq<Binding>)
    requires kvs != []
    ensures (exists j :: 0 < j < |kvs| && kvs[j].key == kvs[0].key) <==>
            (exists j :: 0 < j < |kvs| && Encode(kvs[j].key) == Encode(kvs[0].key))
  {
    hide Encode;
    forall j | 0 < j < |kvs| && Encode(kvs[j].key) == Encode(kvs[0].key) ensures kvs[j].key == kvs[0].key {
      EncodeInjective(kvs[j].key, kvs[0].key);
    }
  }

  lemma StripShortens(key: seq<byte>)
    requires DigitFirst(key)
    ensures LeadingDigits(key) > 0
  {
    FirstFinds(key, NotSpaceOrDigit);
  }

  lemma LaterKeys(kvs: seq<Binding>, k: seq<byte>)
    requires kvs != []
    ensures Binds(Expected(kvs)[1..], k) <==> exists j :: 0 < j < |kvs| && Encode(kvs[j].key) == k
  {
    hide Encode;
    var rest := Expected(kvs)[1..];
    if j :| 0 < j < |kvs| && Encode(kvs[j].key) == k {
      assert rest[j - 1].key == k;
    }
    if i :| 0 <= i < |rest| && rest[i].key == k {
      assert Encode(kvs[i + 1].key) == k;
    }
  }

  /** With metadata the count comes first, so no key can lose its digits. */
  lemma RoundTripWithMetadata(l: ListValue, r: Dict)
    requires Clean(l.params) && l.params != [] && l.metaCount > 0
    ensures ParseReply(ReplyBuffer(l), |ReplyBuffer(l)|, r) == Parsed(true, Bind(r, Bindings(Sent(l))))
  {
    hide DecodedValue, ParseReply, Bind, ReplyBuffer;
    SentIsClean(l);
    PrintThenParse(l, r);
    StripKeepsIff(Sent(l));
  }

  /** A first key that begins with a digit is stored under another name: `1a=b` is read as `a=b`. */
  lemma DigitKeyIsLost()
    ensures var l := ListValue(EncodeAll([Binding([0x31, 0x61], [0x62])]), 0);
      var o := ParseReply(ReplyBuffer(l), |ReplyBuffer(l)|, map[]);
      o == Parsed(true, map[[0x61] := [0x62]])
  {
    var kvs := [Binding([0x31, 0x61], [0x62])];
    var l := ListValue(EncodeAll(kvs), 0);
    EncodeAllIsClean(kvs);
    PrintThenParse(l, map[]);
    EncodeUnreserved([0x31, 0x61]);
    EncodeUnreserved([0x62]);
    DecodedValueOfEncoded([0x62]);
    var key: seq<byte> := [0x31, 0x61];
    FirstUnique(key, NotSpaceOrDigit, 1);
    var bs := Bindings(StripFirst(Sent(l)));
    assert bs == [Binding([0x61], [0x62])];
    assert bs[1..] == [];
  }

  /** The stored value of an encoded key is the last original value given for it. */
  lemma LastValueIsStored(kvs: seq<Binding>, r: Dict, i: nat)
    requires i < |kvs| && forall j :: i < j < |kvs| ==> kvs[j].key != kvs[i].key
    ensures var stored := Bind(r, Expected(kvs));
      Encode(kvs[i].key) in stored && stored[Encode(kvs[i].key)] == kvs[i].value
  {
    hide Encode, Bind;
    forall j | i < j < |kvs| ensures Encode(kvs[j].key) != Encode(kvs[i].key) {
      if Encode(kvs[j].key) == Encode(kvs[i].key) {
        EncodeInjective(kvs[j].key, kvs[i].key);
      }
    }
    BindLastWins(r, Expected(kvs), i);
  }

  /** Entries of the result hash under other keys are left as they were. */
  lemma OtherEntriesAreKept(kvs: seq<Binding>, r: Dict, k: seq<byte>)
    requires forall i :: 0 <= i < |kvs| ==> Encode(kvs[i].key) != k
    ensures var stored := Bind(r, Expected(kvs));
      (k in stored <==> k in r) && (k in r ==> stored[k] == r[k])
  {
    hide Encode, Bind;
    BindKeepsOthers(r, Expected(kvs), k);
  }

  /**
   End to end: however the network cuts the reply and whatever follows it, the
   client stores the expected values, under the same condition as the round trip.
   */
  lemma ReplyOverTheWireIff(kvs: seq<Binding>, chunks: seq<Receive.Recv>, after: seq<Receive.Recv>)
    requires kvs != [] && forall i :: 0 <= i < |kvs| ==> NulFree(kvs[i].value)
    requires Receive.Splits(chunks, Render(OK_COMMAND, ListValue(EncodeAll(kvs), 0)))
    ensures (forall r: Dict ::
               Receive.HandleReply(chunks + after, r) == Receive.Answer(Parsed(true, Bind(r, Expected(kvs)))))
      <==> Intact(kvs)
  {
    hide Encode, Bind, ParseReply, Join, Bindings, Expected, StripFirst, Intact;
    var l := ListValue(EncodeAll(kvs), 0);
    var line := Render(OK_COMMAND, l);
    var b := ReplyBuffer(l);
    EncodeAllIsClean(kvs);
    RoundTripIff(kvs);
    ReplyBufferShape(l);
    LineIsOneLine(l);
    forall r: Dict ensures Receive.HandleReply(chunks + after, r) == Receive.Answer(ParseReply(b, |b|, r)) {
      Receive.SplitIndependent(chunks, after, line);
    }
  }

  lemma LineIsOneLine(l: ListValue)
    requires Clean(l.params) && l.params != []
    ensures Receive.OneLine(Render(OK_COMMAND, l))
  {
    hide Join;
    SentIsClean(l);
    ReplyBufferShape(l);
    JoinIsNulFree(Sent(l));
    var text, line := Join(Sent(l)), Render(OK_COMMAND, l);
    forall i | 0 <= i < |line| - 1 ensures line[i] != LF {
      if 3 <= i < |line| - 2 {
        assert line[i] == text[i - 3];
      }
    }
  }

  // ----------------------------------------------------------- error replies

  /** `ERR {code} {desc}` with both encoded, its CR already overwritten. */
  function ErrorBuffer(code: seq<byte>, desc: seq<byte>): seq<byte> {
    ERR_ + Encode(code) + [SPACE] + Encode(desc) + [NUL, LF]
  }

  /** Where the parser's three scans stop in `ERR {c} {d}`. */
  lemma ErrorScans(c: seq<byte>, d: seq<byte>)
    requires c != [] && SPACE !in c && SPACE !in d
    ensures var b := ERR_ + c + [SPACE] + d + [NUL, LF]; var n, at := |b|, 4 + |c|;
      && at + 1 < n
      && First(b[4..n], NotSpace) == 0 && First(b[4..n], IsSpace) == |c|
      && First(b[at + 1..n], NotSpace) == 0
      && b[4..at] == c && b[at + 1..] == d + [NUL, LF]
  {
    var b := ERR_ + c + [SPACE] + d + [NUL, LF];
    var n, at := |b|, 4 + |c|;
    assert b[4..n] == c + ([SPACE] + d + [NUL, LF]);
    FirstUnique(b[4..n], NotSpace, 0);
    FirstUnique(b[4..n], IsSpace, |c|);
    assert b[at + 1..n] == d + [NUL, LF];
    assert (d + [NUL, LF])[0] == if d == [] then NUL else d[0];
    FirstUnique(b[at + 1..n], NotSpace, 0);
  }

  lemma ErrorText(c: seq<byte>, d: seq<byte>, r: Dict)
    requires c != [] && SPACE !in c && NUL !in c && SPACE !in d && NUL !in d
    ensures var b := ERR_ + c + [SPACE] + d + [NUL, LF];
      ParseErr(b, |b|, r) == Parsed(false, r[ERROR_CODE := DecodedValue(c)][ERROR_DESC := DecodedValue(d)])
  {
    hide DecodedValue, First, CString;
    ErrorScans(c, d);
    assert c[..|c|] == c;
    CStringOf(c, |c|);
    assert (d + [NUL, LF])[..|d|] == d;
    CStringOf(d + [NUL, LF], |d|);
  }

  lemma NoCodeIsMalformed(d: seq<byte>, r: Dict)
    requires SPACE !in d
    ensures var b := ERR_ + [SPACE] + d + [NUL, LF]; ParseErr(b, |b|, r) == Malformed(r)
  {
    var b := ERR_ + [SPACE] + d + [NUL, LF];
    var n := |b|;
    var text := [SPACE] + d + [NUL, LF];
    assert b[4..n] == text;
    assert text[1] == if d == [] then NUL else d[0];
    FirstUnique(text, NotSpace, 1);
    assert b[5..n] == d + [NUL, LF];
    FirstUnique(b[5..n], IsSpace, n - 5);
  }

  /**
   Error replies: for every NUL-free code and description, the client stores the
   originals under ERROR_CODE and ERROR_DESC and reports not-ok, if and only if
   the code is not empty.
   */
  lemma ErrorRoundTripIff(code: seq<byte>, desc: seq<byte>, r: Dict)
    requires NulFree(code) && NulFree(desc)
    ensures var b := ErrorBuffer(code, desc);
      ParseReply(b, |b|, r) == Parsed(false, r[ERROR_CODE := code][ERROR_DESC := desc]) <==> code != []
  {
    var c, d := Encode(code), Encode(desc);
    EncodeIsSafe(code);
    EncodeIsSafe(desc);
    SafeBytes(c);
    SafeBytes(d);
    var b := ErrorBuffer(code, desc);
    ErrorPrefix(c, d);
    DecodedValueOfEncoded(code);
    DecodedValueOfEncoded(desc);
    hide Encode, DecodedValue, ParseErr, ParseOk;
    if code == [] {
      EncodeNothing();
      assert ERR_ + [] + [SPACE] + d + [NUL, LF] == ERR_ + [SPACE] + d + [NUL, LF];
      NoCodeIsMalformed(d, r);
    } else {
      EncodeSomething(code);
      ErrorText(c, d, r);
    }
  }

  /** Where the three scans stop decides what an error reply means. */
  lemma ParseErrAt(b: seq<byte>, n: nat, c: nat, d: nat, e: nat, r: Dict)
    requires 4 <= c < d < e < n <= |b| && b[..4] == ERR_
    requires First(b[4..n], NotSpace) == c - 4 && First(b[c..n], IsSpace) == d - c
    requires First(b[d + 1..n], NotSpace) == e - d - 1
    ensures ParseReply(b, n, r) ==
      Parsed(false, r[ERROR_CODE := DecodedValue(CString(b[c..d]))][ERROR_DESC := DecodedValue(CString(b[e..]))])
  {
    hide First, CString, DecodedValue;
    assert b[..3][0] == b[..4][0];
  }

  lemma CStringIsText(s: seq<byte>, rest: seq<byte>)
    requires NulFree(s) && (rest != [] ==> rest[0] == NUL)
    ensures CString(s + rest) == s
  {
    assert (s + rest)[..|s|] == s;
    CStringOf(s + rest, |s|);
  }

  /**
   Spaces before the code, and more of them before the description, are skipped;
   the description is all the rest, spaces inside it included.
   */
  lemma ErrorWithSpaces(p: seq<byte>, c: seq<byte>, q: seq<byte>, d: seq<byte>, r: Dict)
    requires (forall x :: x in p ==> x == 0x20) && (forall x :: x in q ==> x == 0x20)
    requires c != [] && 0x20 !in c && NulFree(c) && NulFree(d) && (d != [] ==> d[0] != 0x20)
    ensures var b := ERR_ + (p + (c + ([0x20] + (q + (d + [NUL, LF])))));
      ParseReply(b, |b|, r) == Parsed(false, r[ERROR_CODE := DecodedValue(c)][ERROR_DESC := DecodedValue(d)])
  {
    hide DecodedValue, First, CString, ParseReply;
    var tail := d + [NUL, LF];
    assert tail[0] == if d == [] then NUL else d[0];
    var second := [0x20] + (q + tail);
    var b := ERR_ + (p + (c + second));
    ErrorSlices(p, c, q, tail);
    assert (c + second)[0] == c[0] && c[0] in c;
    RunThen(p, c + second, NotSpace);
    RunThen(c, second, IsSpace);
    RunThen(q, tail, NotSpace);
    CStringIsText(c, []);
    assert c + [] == c;
    CStringIsText(d, [NUL, LF]);
    ParseErrAt(b, |b|, 4 + |p|, 4 + |p| + |c|, 4 + |p| + |c| + 1 + |q|, r);
  }

  lemma AfterFront(a: seq<byte>, b: seq<byte>)
    ensures (a + b)[..|a|] == a && (a + b)[|a|..] == b && (a + b)[|a|..|a + b|] == b
  {
  }

  lemma DropTwice(s: seq<byte>, i: nat, j: nat)
    requires i + j <= |s|
    ensures s[i..][j..] == s[i + j..] && s[i + j..|s|] == s[i + j..]
  {
  }

  lemma ErrorSlices(p: seq<byte>, c: seq<byte>, q: seq<byte>, tail: seq<byte>)
    ensures var second := [0x20] + (q + tail); var b := ERR_ + (p + (c + second));
      var at, from := 4 + |p|, 4 + |p| + |c|;
      && |b| == from + 1 + |q| + |tail|
      && b[4..|b|] == p + (c + second) && b[at..|b|] == c + second && b[from + 1..|b|] == q + tail
      && b[at..from] == c && b[from + 1 + |q|..] == tail && b[..4] == ERR_
  {
    var second := [0x20] + (q + tail);
    var b := ERR_ + (p + (c + second));
    AfterFront(ERR_, p + (c + second));
    AfterFront(p, c + second);
    DropTwice(b, 4, |p|);
    AfterFront(c, second);
    DropTwice(b, 4 + |p|, |c|);
    AfterFront([0x20], q + tail);
    DropTwice(b, 4 + |p| + |c|, 1);
    AfterFront(q, tail);
    DropTwice(b, 4 + |p| + |c| + 1, |q|);
    assert b[4 + |p|..4 + |p| + |c|] == b[4 + |p|..][..|c|];
  }

  /** An error reply that is all code has no description and is rejected. */
  lemma CodeAloneIsMalformed(c: seq<byte>, r: Dict)
    requires c != [] && 0x20 !in c
    ensures var b := ERR_ + (c + [NUL, LF]); ParseReply(b, |b|, r) == Malformed(r)
  {
    hide First, DecodedValue, CString;
    var text := c + [NUL, LF];
    var b := ERR_ + text;
    assert b[4..|b|] == text && b[..4] == ERR_;
    assert b[..3][0] == 0x45;
    assert text[0] == c[0] && c[0] in c;
    RunThen([], text, NotSpace);
    assert [] + text == text;
    NoSpaceFound(c);
  }

  lemma NoSpaceFound(c: seq<byte>)
    requires 0x20 !in c
    ensures First(c + [NUL, LF], IsSpace) == |c| + 2
  {
    var text := c + [NUL, LF];
    forall i | 0 <= i < |text| ensures !IsSpace(text[i]) {
      assert i < |c| ==> text[i] == c[i] && c[i] in c;
    }
    FirstUnique(text, IsSpace, |text|);
  }

  lemma AllOf(run: seq<byte>, stop: byte -> bool)
    requires forall i :: 0 <= i < |run| ==> !stop(run[i])
    ensures First(run, stop) == |run|
  {
    FirstUnique(run, stop, |run|);
  }

  /** A buffer that ends within the file id has no parameters at all and is rejected. */
  lemma IdAloneIsMalformed(id: seq<byte>, r: Dict)
    requires forall c :: c in id ==> c == 0x20 || 0x30 <= c <= 0x39
    ensures var b := OK_ + id; ParseReply(b, |b|, r) == Malformed(r)
  {
    var b := OK_ + id;
    assert forall i :: 0 <= i < |id| ==> id[i] in id;
    AllOf(id, NotSpaceOrDigit);
    hide First;
    assert b[..3] == OK_ && b[3..|b|] == id;
  }

  /** So is one that ends within the spaces before the error code. */
  lemma NoCodeAtAll(p: seq<byte>, r: Dict)
    requires forall x :: x in p ==> x == 0x20
    ensures ParseReply(ERR_ + p, 4 + |p|, r) == Malformed(r)
  {
    hide DecodedValue, First, CString;
    assert forall i :: 0 <= i < |p| ==> p[i] in p;
    AllOf(p, NotSpace);
    AfterFront(ERR_, p);
    assert (ERR_ + p)[..3][0] == 0x45;
  }

  lemma ParseErrEndsAt(b: seq<byte>, n: nat, c: nat, d: nat, r: Dict)
    requires 4 <= c < d < n <= |b| && b[..4] == ERR_
    requires First(b[4..n], NotSpace) == c - 4 && First(b[c..n], IsSpace) == d - c
    requires First(b[d + 1..n], NotSpace) == n - d - 1
    ensures ParseReply(b, n, r) == Malformed(r)
  {
    hide First, CString, DecodedValue;
    assert b[..3][0] == b[..4][0];
  }

  /** And one that ends within those after it. */
  lemma NoDescriptionAtAll(p: seq<byte>, c: seq<byte>, q: seq<byte>, r: Dict)
    requires (forall x :: x in p ==> x == 0x20) && (forall x :: x in q ==> x == 0x20)
    requires c != [] && 0x20 !in c
    ensures var b := ERR_ + (p + (c + ([0x20] + (q + [])))); ParseReply(b, |b|, r) == Malformed(r)
  {
    hide DecodedValue, First, CString, ParseReply;
    var second := [0x20] + (q + []);
    var b := ERR_ + (p + (c + second));
    ErrorSlices(p, c, q, []);
    assert (c + second)[0] == c[0] && c[0] in c;
    RunThen(p, c + second, NotSpace);
    RunThen(c, second, IsSpace);
    assert q + [] == q && forall i :: 0 <= i < |q| ==> q[i] in q;
    AllOf(q, NotSpace);
    ParseErrEndsAt(b, |b|, 4 + |p|, 4 + |p| + |c|, r);
  }

  /** Anything that starts neither as an answer nor as an error is rejected, and so is what is too short. */
  lemma OtherRepliesAreMalformed(b: seq<byte>, size: nat, r: Dict)
    requires size <= |b|
    requires size < 4 || !(
      (b[0] == 0x4f && b[1] == 0x4b && b[2] == 0x20)
      || (b[0] == 0x45 && b[1] == 0x52 && b[2] == 0x52 && b[3] == 0x20))
    ensures ParseReply(b, size, r) == Malformed(r)
  {
    if size >= 4 {
      assert b[..3] == [b[0], b[1], b[2]] && b[..4] == [b[0], b[1], b[2], b[3]];
    }
  }

  // ------------------------------------------------- separators and values

  /** Separators in front are skipped, however many. */
  lemma LeadingSeparators(amps: seq<byte>, s: seq<byte>)
    requires forall x :: x in amps ==> x == 0x26
    ensures SplitPairs(amps + s) == SplitPairs(s)
  {
    var t, k := amps + s, First(s, NotAmp);
    FirstFinds(s, NotAmp);
    forall i | 0 <= i < |amps| + k ensures !NotAmp(t[i]) {
      assert i < |amps| ==> t[i] == amps[i] && amps[i] in amps;
      assert i >= |amps| ==> t[i] == s[i - |amps|];
    }
    FirstUnique(t, NotAmp, |amps| + k);
    assert t[|amps| + k..] == s[k..];
    assert NextToken(t) == NextToken(s);
    hide NextToken, SplitToken;
  }

  lemma PairIsToken(e: seq<byte>, rest: seq<byte>)
    requires e != [] && 0x26 !in e && (rest != [] ==> rest[0] == 0x26)
    ensures NextToken(e + rest) == (e, if rest == [] then [] else rest[1..])
  {
    var s := e + rest;
    assert forall i :: 0 <= i < |e| ==> s[i] == e[i] && e[i] in e;
    FirstUnique(s, NotAmp, 0);
    assert s[0..] == s;
    assert |e| < |s| ==> s[|e|] == rest[0];
    FirstUnique(s, IsAmp, |e|);
    NextTokenIs(s, 0, |e|);
    assert s[0..0 + |e|] == e;
    assert rest != [] ==> s[|e| + 1..] == rest[1..];
  }

  lemma TokenSplits(k: seq<byte>, v: seq<byte>, rest: seq<byte>)
    requires 0x3d !in k
    ensures SplitToken(k + [0x3d] + v, rest) ==
      Split([Binding(k, DecodedValue(v))] + SplitPairs(rest).bindings, SplitPairs(rest).wellFormed)
  {
    hide DecodedValue, SplitPairs;
    var e := k + [EQ] + v;
    assert forall i :: 0 <= i < |k| ==> e[i] == k[i] && e[i] in k;
    FirstUnique(e, IsEq, |k|);
    assert e[..|k|] == k && e[|k| + 1..] == v;
  }

  /**
   One pair and what follows it: the key is everything before the first `=`, the
   value everything from there to the separator, further `=` included.
   */
  lemma PairSplits(k: seq<byte>, v: seq<byte>, rest: seq<byte>)
    requires 0x3d !in k && 0x26 !in k && 0x26 !in v && (rest != [] ==> rest[0] == 0x26)
    ensures SplitPairs(k + [0x3d] + v + rest) ==
      Split([Binding(k, DecodedValue(v))] + SplitPairs(rest).bindings, SplitPairs(rest).wellFormed)
  {
    hide DecodedValue, NextToken, SplitToken;
    var e, after := k + [EQ] + v, if rest == [] then [] else rest[1..];
    PairIsToken(e, rest);
    TokenSplits(k, v, after);
    if rest != [] {
      assert rest == [0x26] + after;
      LeadingSeparators([0x26], after);
    }
  }

  lemma ErrorPrefix(c: seq<byte>, d: seq<byte>)
    ensures var b := ERR_ + c + [SPACE] + d + [NUL, LF]; |b| > 4 && b[..4] == ERR_ && b[..3] != OK_
  {
    var b := ERR_ + c + [SPACE] + d + [NUL, LF];
    assert b[..3][0] == 0x45;
  }

  lemma EncodeNothing()
    ensures Encode([]) == []
  {
  }

  lemma EncodeSomething(s: seq<byte>)
    requires s != []
    ensures Encode(s) != []
  {
  }
}
