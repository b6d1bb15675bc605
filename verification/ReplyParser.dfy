/**
 The response parser of src/tracker.c.  `ParseReply` says what a reply buffer
 means; the methods walk and tokenise the buffer in place and are proved to
 compute it.
 */
module ReplyParser {
  import opened UrlCodec

  type Dict = map<seq<byte>, seq<byte>>

  datatype Binding = Binding(key: seq<byte>, value: seq<byte>)

  /** The result hash keeps what was set before a malformed pair was met. */
  datatype Outcome = Parsed(ok: bool, result: Dict) | Malformed(result: Dict)

  // -------------------------------------------------------------- scanning

  /** The index of the first byte that stops the scan, or the length. */
  function First(s: seq<byte>, stop: byte -> bool): nat {
    if s == [] || stop(s[0]) then 0 else 1 + First(s[1..], stop)
  }

  predicate NotSpaceOrDigit(b: byte) { b != SPACE && !IsDigit(b) }
  predicate NotSpace(b: byte) { b != SPACE }
  predicate IsSpace(b: byte) { b == SPACE }
  predicate NotAmp(b: byte) { b != AMP }
  predicate IsAmp(b: byte) { b == AMP }
  predicate IsEq(b: byte) { b == EQ }
  predicate IsNul(b: byte) { b == NUL }

  lemma {:induction false} FirstFinds(s: seq<byte>, stop: byte -> bool)
    ensures First(s, stop) <= |s|
    ensures forall i :: 0 <= i < First(s, stop) ==> !stop(s[i])
    ensures First(s, stop) < |s| ==> stop(s[First(s, stop)])
  {
    if s != [] && !stop(s[0]) {
      FirstFinds(s[1..], stop);
      forall i | 0 <= i < First(s, stop) ensures !stop(s[i]) {
        if i > 0 {
          assert s[i] == s[1..][i - 1];
        }
      }
    }
  }

  lemma FirstUnique(s: seq<byte>, stop: byte -> bool, n: nat)
    requires n <= |s| && (forall i :: 0 <= i < n ==> !stop(s[i])) && (n < |s| ==> stop(s[n]))
    ensures First(s, stop) == n
  {
    FirstFinds(s, stop);
  }

  /** The C string a buffer starts with. */
  function CString(s: seq<byte>): (r: seq<byte>)
    ensures NulFree(r) && r <= s
  {
    FirstFinds(s, IsNul);
    s[..First(s, IsNul)]
  }

  lemma CStringOf(s: seq<byte>, n: nat)
    requires n <= |s| && NUL !in s[..n] && (n < |s| ==> s[n] == NUL)
    ensures CString(s) == s[..n]
  {
    forall i | 0 <= i < n ensures !IsNul(s[i]) {
      assert s[i] == s[..n][i];
    }
    FirstUnique(s, IsNul, n);
  }

  // ------------------------------------------------------------- reference

  function DecodedValue(s: seq<byte>): seq<byte> {
    CString(Decode(s))
  }

  /** The bindings a parameter text makes, in order, and whether every pair had its `=`. */
  datatype Split = Split(bindings: seq<Binding>, wellFormed: bool)

  function NextToken(s: seq<byte>): (r: (seq<byte>, seq<byte>))
    ensures r.0 != [] ==> |r.1| < |s|
  {
    FirstFinds(s, NotAmp);
    var t := s[First(s, NotAmp)..];
    FirstFinds(t, IsAmp);
    var n := First(t, IsAmp);
    (t[..n], if n < |t| then t[n + 1..] else [])
  }

  function SplitPairs(s: seq<byte>): Split
    decreases |s|, 0
  {
    var (token, rest) := NextToken(s);
    if token == [] then Split([], true) else SplitToken(token, rest)
  }

  function SplitToken(token: seq<byte>, rest: seq<byte>): Split
    decreases |rest|, 1
  {
    FirstFinds(token, IsEq);
    var e := First(token, IsEq);
    if e == |token| then Split([], false)
    else
      var tail := SplitPairs(rest);
      Split([Binding(token[..e], DecodedValue(token[e + 1..]))] + tail.bindings, tail.wellFormed)
  }

  function Bind(r: Dict, bs: seq<Binding>): Dict
    decreases |bs|
  {
    if bs == [] then r else Bind(r[bs[0].key := bs[0].value], bs[1..])
  }

  // "OK " and "ERR "
  const OK_: seq<byte> := [0x4f, 0x4b, 0x20]
  const ERR_: seq<byte> := [0x45, 0x52, 0x52, 0x20]
  // "ERROR_CODE" and "ERROR_DESC"
  const ERROR_CODE: seq<byte> := [0x45, 0x52, 0x52, 0x4f, 0x52, 0x5f, 0x43, 0x4f, 0x44, 0x45]
  const ERROR_DESC: seq<byte> := [0x45, 0x52, 0x52, 0x4f, 0x52, 0x5f, 0x44, 0x45, 0x53, 0x43]

  lemma ReplyWordsSpelled()
    ensures IsText(OK_, "OK ") && IsText(ERR_, "ERR ")
    ensures IsText(ERROR_CODE, "ERROR_CODE") && IsText(ERROR_DESC, "ERROR_DESC")
  {
  }

  function ParseOk(b: seq<byte>, size: nat, r: Dict): Outcome
    requires 3 <= size <= |b|
  {
    FirstFinds(b[3..size], NotSpaceOrDigit);
    var n := First(b[3..size], NotSpaceOrDigit);
    if n == size - 3 then Malformed(r)
    else
      var split := SplitPairs(CString(b[3 + n..]));
      if split.wellFormed then Parsed(true, Bind(r, split.bindings)) else Malformed(Bind(r, split.bindings))
  }

  function ParseErr(b: seq<byte>, size: nat, r: Dict): Outcome
    requires 4 <= size <= |b|
  {
    FirstFinds(b[4..size], NotSpace);
    var c := 4 + First(b[4..size], NotSpace);
    FirstFinds(b[c..size], IsSpace);
    var d := c + First(b[c..size], IsSpace);
    if c == size || d == size then Malformed(r)
    else
      FirstFinds(b[d + 1..size], NotSpace);
      var e := d + 1 + First(b[d + 1..size], NotSpace);
      if e == size then Malformed(r)
      else
        Parsed(false, r[ERROR_CODE := DecodedValue(CString(b[c..d]))][ERROR_DESC := DecodedValue(CString(b[e..]))])
  }

  /** What mfs_tracker_parse_response makes of `size` bytes of buffer `b`. */
  function ParseReply(b: seq<byte>, size: nat, r: Dict): Outcome
    requires size <= |b|
  {
    if size < 4 then Malformed(r)
    else if b[..3] == OK_ then ParseOk(b, size, r)
    else if size > 4 && b[..4] == ERR_ then ParseErr(b, size, r)
    else Malformed(r)
  }

  /** How callers hand a buffer over: NUL right after the text, or in place of its CR. */
  predicate Terminated(b: seq<byte>, size: nat)
  {
    (size < |b| && b[size] == NUL) || (2 <= size <= |b| && b[size - 2] == NUL)
  }

  // ---------------------------------------------------------------- lemmas

  /** Keys that are not bound keep their old entry. */
  lemma {:induction false} BindKeepsOthers(r: Dict, bs: seq<Binding>, k: seq<byte>)
    requires forall i :: 0 <= i < |bs| ==> bs[i].key != k
    ensures k in Bind(r, bs) <==> k in r
    ensures k in r ==> Bind(r, bs)[k] == r[k]
    decreases |bs|
  {
    if bs != [] {
      BindKeepsOthers(r[bs[0].key := bs[0].value], bs[1..], k);
    }
  }

  /** The last binding of a key is the one that stays. */
  lemma {:induction false} BindLastWins(r: Dict, bs: seq<Binding>, i: nat)
    requires i < |bs| && forall j :: i < j < |bs| ==> bs[j].key != bs[i].key
    ensures bs[i].key in Bind(r, bs) && Bind(r, bs)[bs[i].key] == bs[i].value
    decreases |bs|
  {
    var r' := r[bs[0].key := bs[0].value];
    if i == 0 {
      BindKeepsOthers(r', bs[1..], bs[0].key);
    } else {
      BindLastWins(r', bs[1..], i - 1);
    }
  }

  // --------------------------------------------------------------- methods

  /** skip_space_or_number, skip_char and skip_not_char differ only in what stops them. */
  method Skip(buf: array<byte>, from: nat, left: nat, stop: byte -> bool) returns (n: int)
    requires from + left <= buf.Length
    ensures var f := First(buf[from..from + left], stop); n == if f == left then -1 else f
    ensures -1 <= n < left && (n >= 0 ==> stop(buf[from + n]))
  {
    ghost var s := buf[from..from + left];
    n := 0;
    while n < left && !stop(buf[from + n])
      invariant 0 <= n <= left
      invariant forall i :: 0 <= i < n ==> !stop(s[i])
    {
      n := n + 1;
    }
    FirstUnique(s, stop, n);
    if n == left {
      n := -1;
    }
  }

  /** Walks the C string at `from` to the first stopping byte or to its end. */
  method ScanStr(buf: array<byte>, from: nat, stop: byte -> bool, ghost end: nat) returns (at: nat)
    requires from <= end < buf.Length && buf[end] == NUL && NUL !in buf[from..end]
    ensures from <= at <= end && at - from == First(buf[from..end], stop)
  {
    ghost var s := buf[from..end];
    at := from;
    while buf[at] != NUL && !stop(buf[at])
      invariant from <= at <= end
      invariant forall i :: 0 <= i < at - from ==> !stop(s[i])
      decreases end - at
    {
      at := at + 1;
    }
    assert at < end ==> s[at - from] == buf[at];
    FirstUnique(s, stop, at - from);
  }

  /** skip_not_char_in_str: the C string at `from` ends at the ghost index `end`. */
  method SkipNotEqInStr(buf: array<byte>, from: nat, ghost end: nat) returns (n: int)
    requires from <= end < buf.Length && buf[end] == NUL && NUL !in buf[from..end]
    ensures var f := First(buf[from..end], IsEq); n == if f == end - from then -1 else f
    ensures -1 <= n < end - from
  {
    var at := ScanStr(buf, from, IsEq, end);
    n := if buf[at] == NUL then -1 else at - from;
  }

  method ReadCString(buf: array<byte>, from: nat, ghost end: nat) returns (s: CStr)
    requires from <= end < buf.Length && buf[end] == NUL && NUL !in buf[from..end]
    ensures s == buf[from..end]
  {
    var n := from;
    while buf[n] != NUL
      invariant from <= n <= end
      decreases end - n
    {
      n := n + 1;
    }
    s := buf[from..n];
  }

  /** Decoding the C string at `from`, as the hash stores it. */
  method DecodeAt(buf: array<byte>, from: nat, ghost end: nat) returns (v: seq<byte>)
    requires from <= end < buf.Length && buf[end] == NUL && NUL !in buf[from..end]
    ensures v == DecodedValue(buf[from..end])
  {
    var s := ReadCString(buf, from, end);
    var d, n := UrlDecode(s);
    v := CString(d[..n]);
  }

  lemma NextTokenIs(s: seq<byte>, a: nat, n: nat)
    requires a == First(s, NotAmp) && a + n <= |s| && n == First(s[a..], IsAmp)
    ensures NextToken(s) == (s[a..a + n], if a + n < |s| then s[a + n + 1..] else [])
    ensures n == 0 ==> a == |s|
  {
    FirstFinds(s, NotAmp);
    assert s[a..][..n] == s[a..a + n];
    assert a + n < |s| ==> s[a..][n + 1..] == s[a + n + 1..];
  }

  lemma SubSlice(b: seq<byte>, from: nat, end: nat, x: nat, y: nat)
    requires from <= end <= |b| && x <= y <= end - from
    ensures b[from..end][x..y] == b[from + x..from + y]
  {
    var s := b[from..end];
    assert forall i :: 0 <= i < y - x ==> s[x..y][i] == s[x + i] == b[from + x + i];
  }

  /** The token and the remainder, as slices of the buffer. */
  lemma TokenSlices(b: seq<byte>, from: nat, end: nat, token: nat, stop: nat)
    requires from <= token <= stop <= end <= |b|
    requires token - from == First(b[from..end], NotAmp) && stop - token == First(b[token..end], IsAmp)
    ensures NextToken(b[from..end]) == (b[token..stop], if stop < end then b[stop + 1..end] else [])
    ensures stop == token ==> stop == end
  {
    hide NextToken, First;
    var s := b[from..end];
    SubSlice(b, from, end, token - from, end - from);
    assert s[token - from..] == s[token - from..end - from];
    NextTokenIs(s, token - from, stop - token);
    SubSlice(b, from, end, token - from, stop - from);
    if stop < end {
      SubSlice(b, from, end, stop - from + 1, end - from);
      assert s[stop - from + 1..] == s[stop - from + 1..end - from];
    }
  }

  lemma NulFreeSlice(s: seq<byte>, i: nat, j: nat)
    requires NUL !in s && i <= j <= |s|
    ensures NUL !in s[i..j]
  {
  }

  /** The two scans of apr_strtok: past the separators, then to the end of the token. */
  method ScanToken(buf: array<byte>, from: nat, ghost end: nat) returns (token: nat, stop: nat)
    requires from <= end < buf.Length && buf[end] == NUL && NUL !in buf[from..end]
    ensures from <= token <= stop <= end && (stop == token ==> stop == end)
    ensures NextToken(buf[from..end]) == (buf[token..stop], if stop < end then buf[stop + 1..end] else [])
  {
    hide NextToken, First;
    ghost var b := buf[..];
    assert forall i, j :: 0 <= i <= j <= |b| ==> buf[i..j] == b[i..j];
    token := ScanStr(buf, from, NotAmp, end);
    NulFreeSlice(b[from..end], token - from, end - from);
    SubSlice(b, from, end, token - from, end - from);
    stop := ScanStr(buf, token, IsAmp, end);
    TokenSlices(b, from, end, token, stop);
  }

  /**
   apr_strtok with "&": skips separators, ends the token with a NUL written over
   the separator after it, and reports where the next call resumes.
   */
  method StrTok(buf: array<byte>, from: nat, ghost end: nat)
    returns (found: bool, token: nat, last: nat, ghost stop: nat)
    requires from <= end < buf.Length && buf[end] == NUL && NUL !in buf[from..end]
    modifies buf
    ensures from <= token <= stop <= last <= end && buf[stop] == NUL && buf[end] == NUL
    ensures NUL !in buf[token..stop] && NUL !in buf[last..end]
    ensures found <==> token < stop
    ensures NextToken(old(buf[from..end])) == (buf[token..stop], buf[last..end])
  {
    hide NextToken, First;
    ghost var s := buf[from..end];
    token, last := ScanToken(buf, from, end);
    stop := last;
    found := token < last;
    ghost var t, rest := buf[token..stop], if stop < end then buf[stop + 1..end] else [];
    NulFreeSlice(s, token - from, stop - from);
    assert t == s[token - from..stop - from];
    if stop < end {
      NulFreeSlice(s, stop + 1 - from, end - from);
      assert rest == s[stop + 1 - from..end - from];
    }
    if buf[last] != NUL {
      buf[last] := NUL;
      last := last + 1;
    }
    assert buf[token..stop] == t;
    assert buf[last..end] == rest;
  }

  lemma SplitTokenStep(r: Dict, token: seq<byte>, rest: seq<byte>, e: nat)
    requires e == First(token, IsEq) && e < |token|
    ensures var s, t := SplitToken(token, rest), SplitPairs(rest);
      && s.wellFormed == t.wellFormed
      && Bind(r, s.bindings) == Bind(r[token[..e] := DecodedValue(token[e + 1..])], t.bindings)
  {
    var b := Binding(token[..e], DecodedValue(token[e + 1..]));
    var t := SplitPairs(rest).bindings;
    assert ([b] + t)[1..] == t;
  }

  /** One turn of the pair loop: `r` is updated, or the pair has no `=`. */
  method BindPair(buf: array<byte>, token: nat, ghost stop: nat, r: Dict, ghost rest: seq<byte>)
    returns (ok: bool, r': Dict)
    requires token < stop < buf.Length && buf[stop] == NUL && NUL !in buf[token..stop]
    ensures var s, t := SplitToken(buf[token..stop], rest), SplitPairs(rest);
      if ok then s.wellFormed == t.wellFormed && Bind(r, s.bindings) == Bind(r', t.bindings)
      else !s.wellFormed && Bind(r, s.bindings) == r' == r
  {
    hide DecodedValue, SplitPairs;
    var e := SkipNotEqInStr(buf, token, stop);
    r' := r;
    ok := e != -1;
    if ok {
      ghost var pair := buf[token..stop];
      assert buf[token + e + 1..stop] == pair[e + 1..] && buf[token..token + e] == pair[..e];
      NulFreeSlice(pair, e + 1, |pair|);
      assert pair[e + 1..|pair|] == pair[e + 1..];
      var value := DecodeAt(buf, token + e + 1, stop);
      SplitTokenStep(r, pair, rest, e);
      r' := r[buf[token..token + e] := value];
    }
  }

  /** The pair loop, tokenising the buffer in place. */
  method ParsePairs(buf: array<byte>, from: nat, ghost end: nat, r0: Dict) returns (wellFormed: bool, r: Dict)
    requires from <= end < buf.Length && buf[end] == NUL && NUL !in buf[from..end]
    modifies buf
    ensures var s := SplitPairs(old(buf[from..end]));
      wellFormed == s.wellFormed && r == Bind(r0, s.bindings)
  {
    hide SplitToken, NextToken;
    ghost var all := SplitPairs(buf[from..end]);
    r := r0;
    var found, token, last;
    ghost var stop;
    found, token, last, stop := StrTok(buf, from, end);
    while found
      invariant token <= stop <= last <= end < buf.Length
      invariant buf[stop] == NUL && buf[end] == NUL
      invariant NUL !in buf[token..stop] && NUL !in buf[last..end]
      invariant found <==> token < stop
      invariant found ==> var s := SplitToken(buf[token..stop], buf[last..end]);
        all.wellFormed == s.wellFormed && Bind(r0, all.bindings) == Bind(r, s.bindings)
      invariant !found ==> all.wellFormed && Bind(r0, all.bindings) == r
      decreases end - last + (if found then 1 else 0)
    {
      var ok;
      ok, r := BindPair(buf, token, stop, r, buf[last..end]);
      if !ok {
        return false, r;
      }
      found, token, last, stop := StrTok(buf, last, end);
    }
    return true, r;
  }

  /** Where the C string at `from` ends, when there is a NUL to end it. */
  ghost function StrEnd(b: seq<byte>, from: nat, z: nat): (end: nat)
    requires from <= z < |b| && b[z] == NUL
    ensures from <= end <= z && b[end] == NUL && NUL !in b[from..end]
    ensures CString(b[from..]) == b[from..end]
  {
    var s := b[from..];
    FirstFinds(s, IsNul);
    assert s[z - from] == NUL;
    var end := from + First(s, IsNul);
    assert b[from..end] == s[..First(s, IsNul)];
    end
  }

  /** The index of a NUL that both kinds of caller guarantee. */
  ghost function Terminator(b: seq<byte>, size: nat): (z: nat)
    requires Terminated(b, size)
    ensures z < |b| && b[z] == NUL && (z == size || z == size - 2)
  {
    if size < |b| && b[size] == NUL then size else size - 2
  }

  method ParseOkReply(buf: array<byte>, size: nat, r: Dict) returns (o: Outcome)
    requires 4 <= size <= buf.Length && Terminated(buf[..], size) && buf[2] == SPACE
    modifies buf
    ensures o == ParseOk(old(buf[..]), size, r)
  {
    hide SplitPairs, Bind;
    ghost var b := buf[..];
    var n := Skip(buf, 3, size - 3, NotSpaceOrDigit);
    assert buf[3..size] == b[3..size];
    if n == -1 {
      return Malformed(r);
    }
    FirstFinds(b[3..size], NotSpaceOrDigit);
    ghost var z := Terminator(b, size);
    assert z < size ==> b[3..size][z - 3] == NUL;
    ghost var end := StrEnd(b, 3 + n, z);
    assert buf[3 + n..end] == b[3 + n..end];
    var wellFormed, r' := ParsePairs(buf, 3 + n, end, r);
    o := if wellFormed then Parsed(true, r') else Malformed(r');
  }

  /** Decoding whatever C string starts at `from`. */
  method DecodeString(buf: array<byte>, from: nat, ghost z: nat) returns (v: seq<byte>)
    requires from <= z < buf.Length && buf[z] == NUL
    ensures v == DecodedValue(CString(buf[from..]))
  {
    hide DecodedValue;
    ghost var end := StrEnd(buf[..], from, z);
    assert buf[..][from..end] == buf[from..end] && buf[..][from..] == buf[from..];
    v := DecodeAt(buf, from, end);
  }

  lemma CStringCut(b: seq<byte>, c: nat, d: nat)
    requires c <= d < |b|
    ensures CString(b[d := NUL][c..]) == CString(b[c..d])
  {
    var s, t := b[d := NUL][c..], b[c..d];
    FirstFinds(t, IsNul);
    var n := First(t, IsNul);
    assert s[..d - c] == t && s[d - c] == NUL;
    assert forall i :: 0 <= i < n ==> s[i] == t[i];
    FirstUnique(s, IsNul, n);
  }

  /** The first two scans of the ERR branch: where the code starts and where it stops. */
  method FindCode(buf: array<byte>, size: nat) returns (found: bool, c: nat, d: nat)
    requires 4 < size <= buf.Length
    ensures 4 <= c <= size && c == 4 + First(buf[4..size], NotSpace)
    ensures found ==> d < size && d == c + First(buf[c..size], IsSpace) && buf[d] == SPACE
    ensures !found ==> c == size || c + First(buf[c..size], IsSpace) == size
  {
    FirstFinds(buf[4..size], NotSpace);
    hide First, NotSpace;
    found, c, d := false, size, size;
    var n := Skip(buf, 4, size - 4, NotSpace);
    assert buf[4..4 + (size - 4)] == buf[4..size];
    if n == -1 {
      return;
    }
    c := 4 + n;
    n := Skip(buf, c, size - c, IsSpace);
    assert buf[c..c + (size - c)] == buf[c..size];
    if n == -1 {
      return;
    }
    assert IsSpace(buf[c + n]);
    d, found := c + n, true;
  }

  method ParseErrReply(buf: array<byte>, size: nat, r: Dict) returns (o: Outcome)
    requires 4 < size <= buf.Length && Terminated(buf[..], size) && buf[3] == SPACE
    modifies buf
    ensures o == ParseErr(old(buf[..]), size, r)
  {
    hide DecodedValue, CString, First, StrEnd;
    ghost var b := buf[..];
    assert buf[4..size] == b[4..size];
    var found, c, d := FindCode(buf, size);
    assert buf[c..size] == b[c..size];
    if !found {
      return Malformed(r);
    }
    buf[d] := NUL;
    assert buf[..] == b[d := NUL];
    var n := Skip(buf, d + 1, size - (d + 1), NotSpace);
    assert buf[d + 1..d + 1 + (size - (d + 1))] == b[d + 1..size];
    if n == -1 {
      return Malformed(r);
    }
    var e := d + 1 + n;
    var code, desc := DecodeFields(buf, b, size, c, d, e);
    o := Parsed(false, r[ERROR_CODE := code][ERROR_DESC := desc]);
  }

  /** Both fields, once the code has been cut off at `d`. */
  method DecodeFields(buf: array<byte>, ghost b: seq<byte>, size: nat, c: nat, d: nat, e: nat)
    returns (code: seq<byte>, desc: seq<byte>)
    requires c <= d < e < size <= |b| && Terminated(b, size) && b[d] == SPACE
    requires buf[..] == b[d := NUL] && e == d + 1 + First(b[d + 1..size], NotSpace)
    ensures code == DecodedValue(CString(b[c..d])) && desc == DecodedValue(CString(b[e..]))
  {
    hide DecodedValue, CString, First, StrEnd;
    ghost var z := Terminator(b, size);
    TerminatorAhead(b, size, d, e, z);
    assert buf[c..] == b[d := NUL][c..] && buf[e..] == b[e..];
    assert buf[d] == buf[..][d] && buf[z] == buf[..][z];
    CStringCut(b, c, d);
    code := DecodeString(buf, c, d);
    desc := DecodeString(buf, e, z);
  }

  lemma TerminatorAhead(b: seq<byte>, size: nat, d: nat, e: nat, z: nat)
    requires d < e < size <= |b| && b[d] == SPACE
    requires e == d + 1 + First(b[d + 1..size], NotSpace)
    requires z < |b| && b[z] == NUL && (z == size || z == size - 2)
    ensures e <= z
  {
    FirstFinds(b[d + 1..size], NotSpace);
    assert d < z < size ==> b[d + 1..size][z - d - 1] == NUL;
  }

  /**
   mfs_tracker_parse_response: the in-place parser computes ParseReply, for
   every buffer that is NUL-terminated in either of the callers' ways.
   */
  method ParseResponse(buf: array<byte>, size: nat, r: Dict) returns (o: Outcome)
    requires size <= buf.Length && Terminated(buf[..], size)
    modifies buf
    ensures o == ParseReply(old(buf[..]), size, r)
  {
    hide ParseOk, ParseErr;
    if size < 4 {
      return Malformed(r);
    }
    if buf[..3] == OK_ {
      assert buf[2] == buf[..3][2];
      o := ParseOkReply(buf, size, r);
    } else if size > 4 && buf[..4] == ERR_ {
      assert buf[3] == buf[..4][3];
      o := ParseErrReply(buf, size, r);
    } else {
      buf[3] := NUL;
      o := Malformed(r);
    }
  }
}
