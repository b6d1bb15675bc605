/**
 The printer of src/tracker.c: a request line is written into a buffer sized
 beforehand from the list's running totals.
 */
module RequestLine {
  import opened UrlCodec
  import opened Parameters

  function Entry(p: Param): seq<byte> {
    p.key + [EQ] + p.value
  }

  function Join(ps: seq<Param>): seq<byte> {
    if ps == [] then []
    else if |ps| == 1 then Entry(ps[0])
    else Entry(ps[0]) + [AMP] + Join(ps[1..])
  }

  /** The metadata count, sent ahead of the entries when there is metadata. */
  function MetaPrefix(metaCount: nat): seq<byte> {
    if metaCount > 0 then META_KEYS_EQ + Decimal(metaCount) + [AMP] else []
  }

  /** Command, space, the entries with separators between them, CR LF: the line the printer is for. */
  function Render(cmd: seq<byte>, l: ListValue): seq<byte> {
    cmd + [SPACE] + MetaPrefix(l.metaCount) + Join(l.params) + [CR, LF]
  }

  /** The size mfs_tracker_build_request computes before writing anything. */
  function TotalLength(cmd: seq<byte>, count: nat, strLen: nat, metaCount: nat): int {
    |cmd| + 3 + strLen + count - 1 + |MetaPrefix(metaCount)|
  }

  predicate NoRaw(ps: seq<Param>) {
    forall i :: 0 <= i < |ps| ==> !ps[i].raw
  }

  // ---------------------------------------------------------------- lemmas

  lemma {:induction false} TextLengthCons(p: Param, ps: seq<Param>)
    ensures TextLength([p] + ps) == EntryLength(p) + TextLength(ps)
    decreases |ps|
  {
    var all := [p] + ps;
    if ps == [] {
      assert all[..|all| - 1] == [];
    } else {
      TextLengthCons(p, ps[..|ps| - 1]);
      assert all[..|all| - 1] == [p] + ps[..|ps| - 1];
    }
  }

  lemma {:induction false} JoinLength(ps: seq<Param>)
    requires NoRaw(ps)
    ensures |Join(ps)| == TextLength(ps) + if ps == [] then 0 else |ps| - 1
    decreases |ps|
  {
    if ps != [] {
      assert ps == [ps[0]] + ps[1..];
      TextLengthCons(ps[0], ps[1..]);
      JoinLength(ps[1..]);
    }
  }

  /**
   The computed size is the line's length exactly when there is a parameter.
   With none it is one byte short, because the `- 1` for the missing separator
   is taken although there are no separators.
   */
  lemma SizeIsExactIff(cmd: seq<byte>, l: ListValue)
    requires NoRaw(l.params)
    ensures TotalLength(cmd, |l.params|, TextLength(l.params), l.metaCount) == |Render(cmd, l)|
       <==> l.params != []
    ensures l.params == [] ==>
        TotalLength(cmd, |l.params|, TextLength(l.params), l.metaCount) == |Render(cmd, l)| - 1
  {
    JoinLength(l.params);
  }

  // --------------------------------------------------------------- methods

  /** C strcpy, its NUL included; nothing else changes. */
  method StrCpy(buf: array<byte>, pos: nat, s: seq<byte>)
    requires pos + |s| < buf.Length
    modifies buf
    ensures buf[..pos + |s|] == old(buf[..pos]) + s && buf[pos + |s|] == NUL
  {
    forall i | 0 <= i < |s| {
      buf[pos + i] := s[i];
    }
    buf[pos + |s|] := NUL;
  }

  /** `*cat_pos++ = b`. */
  method PutByte(buf: array<byte>, pos: nat, b: byte) returns (next: nat)
    requires pos < buf.Length
    modifies buf
    ensures next == pos + 1 && buf[..next] == old(buf[..pos]) + [b]
  {
    buf[pos] := b;
    next := pos + 1;
    assert buf[..next] == buf[..pos] + [b];
  }

  /** One turn of the printing loop. */
  method PutEntry(buf: array<byte>, pos: nat, p: Node, more: bool) returns (next: nat)
    requires p.Measured() && !p.isMetadata
    requires pos + |Entry(p.View())| + (if more then 1 else 0) < buf.Length
    modifies buf
    ensures next == pos + |Entry(p.View())| + (if more then 1 else 0)
    ensures buf[..next] == old(buf[..pos]) + Entry(p.View()) + (if more then [AMP] else [])
  {
    StrCpy(buf, pos, p.key);
    next := PutByte(buf, pos + p.keyLength, EQ);
    StrCpy(buf, next, p.value);
    next := next + p.valueLength;
    if more {
      next := PutByte(buf, next, AMP);
    }
  }

  /** Command, space and metadata count. */
  method PutHead(buf: array<byte>, cmd: CStr, metaCount: nat) returns (pos: nat)
    requires |cmd| + 1 + |MetaPrefix(metaCount)| < buf.Length
    modifies buf
    ensures pos == |cmd| + 1 + |MetaPrefix(metaCount)|
    ensures buf[..pos] == cmd + [SPACE] + MetaPrefix(metaCount)
  {
    buf[0] := NUL;
    StrCpy(buf, 0, cmd);
    pos := |cmd|;
    buf[pos] := SPACE;
    pos := pos + 1;
    assert buf[..pos] == cmd + [SPACE];
    if metaCount > 0 {
      var prefix := META_KEYS_EQ + Decimal(metaCount) + [AMP];
      StrCpy(buf, pos, prefix);
      pos := pos + |prefix|;
    }
  }

  /** CR, LF and the final NUL. */
  method PutEnd(buf: array<byte>, pos: nat)
    requires pos + 3 <= buf.Length
    modifies buf
    ensures buf[..pos + 2] == old(buf[..pos]) + [CR, LF] && buf[pos + 2] == NUL
  {
    buf[pos], buf[pos + 1], buf[pos + 2] := CR, LF, NUL;
    assert buf[..pos + 2] == buf[..pos] + [CR, LF];
  }

  lemma JoinStep(ps: seq<Param>, i: nat, done: seq<byte>)
    requires i < |ps|
    ensures var sep := if i + 1 < |ps| then [AMP] else [];
      && |Join(ps[i..])| == |Entry(ps[i])| + |sep| + |Join(ps[i + 1..])|
      && done + Join(ps[i..]) == (done + Entry(ps[i]) + sep) + Join(ps[i + 1..])
  {
    var s := ps[i..];
    assert s[0] == ps[i] && s[1..] == ps[i + 1..];
  }

  /** The printing loop over the linked list. */
  method PutEntries(buf: array<byte>, from: nat, l: ParameterList) returns (pos: nat)
    requires l.Valid() && NoRaw(l.Value().params)
    requires from + |Join(l.Value().params)| < buf.Length
    modifies buf
    ensures pos == from + |Join(l.Value().params)|
    ensures buf[..pos] == old(buf[..from]) + Join(l.Value().params)
  {
    hide Join, Entry, TextLength;
    ghost var ps, head := l.Value().params, buf[..from];
    var param := l.head;
    ghost var i := 0;
    pos := from;
    assert ps[0..] == ps;
    while param != null
      invariant 0 <= i <= |ps| && param == if i < |ps| then l.nodes[i] else null
      invariant l.Valid() && l.Value().params == ps
      invariant from <= pos && pos + |Join(ps[i..])| == from + |Join(ps)|
      invariant buf[..pos] + Join(ps[i..]) == head + Join(ps)
      decreases |ps| - i
    {
      JoinStep(ps, i, buf[..pos]);
      assert ps[i] == param.View();
      pos := PutEntry(buf, pos, param, param.next != null);
      param, i := param.next, i + 1;
    }
    assert ps[i..] == [];
    JoinOfNothing();
  }

  /**
   mfs_tracker_build_request: exactly the line and its NUL are written, without a
   gap.  `size + 1` cells are allocated; one more is modelled behind them, and it
   is written to if and only if there is no parameter.
   */
  method BuildRequest(cmd: CStr, l: ParameterList) returns (request: array<byte>, size: nat, end: nat)
    requires l.Valid() && NoRaw(l.Value().params)
    ensures fresh(request) && request.Length == size + 2
    ensures end == |Render(cmd, l.Value())| + 1 && end <= request.Length
    ensures request[..end] == Render(cmd, l.Value()) + [NUL]
    ensures l.count > 0 ==> end == size + 1 && request[..size] == Render(cmd, l.Value())
    ensures l.count == 0 ==> end == size + 2 && request[..size] == Render(cmd, l.Value())[..size]
  {
    hide Join, Entry, MetaPrefix, TextLength;
    SizeIsExactIff(cmd, l.Value());
    size := TotalLength(cmd, l.count, l.strLen, l.metaCount);
    request := new byte[size + 2];
    var pos := PutHead(request, cmd, l.metaCount);
    pos := PutEntries(request, pos, l);
    PutEnd(request, pos);
    end := pos + 3;
    var line := Render(cmd, l.Value());
    assert request[..pos + 2] == line;
    assert request[..end] == line + [NUL];
    assert request[..size] == request[..pos + 2][..size];
  }

  lemma JoinOfNothing()
    ensures Join([]) == []
  {
  }
}
