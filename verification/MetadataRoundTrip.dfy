/**
 Metadata across the wire (src/tracker.c): what a list of plain and metadata
 entries, copied into a request and rendered, means to whoever parses the line.
 */
module MetadataRoundTrip {
  import opened UrlCodec
  import opened Parameters
  import opened RequestLine
  import opened ReplyParser
  import opened RoundTrip

  const EMPTY := ListValue([], 0)

  /** The lists callers build: plain entries are encoded already, metadata is any C string. */
  predicate WellMade(src: seq<Param>) {
    forall i :: 0 <= i < |src| ==> WellMadeEntry(src[i])
  }

  predicate WellMadeEntry(p: Param) {
    if p.raw then NulFree(p.key) && NulFree(p.value) else AllSafe(p.key) && AllSafe(p.value)
  }

  // ------------------------------------------------- what a copy consists of

  /** A copy holds no raw entry, so it can be rendered. */
  lemma {:induction false} CopyHasNoRaw(l: ListValue, src: seq<Param>)
    requires NoRaw(l.params)
    ensures NoRaw(CopyInto(l, src).params)
    decreases |src|
  {
    if src != [] {
      CopyParamAdds(l, src[0]);
      CopyHasNoRaw(CopyParam(l, src[0]), src[1..]);
    }
  }

  lemma CopyParamIsClean(l: ListValue, p: Param)
    requires Clean(l.params) && WellMadeEntry(p)
    ensures Clean(CopyParam(l, p).params)
  {
    hide AllSafe, CopyParam;
    CopyParamAdds(l, p);
    if p.raw {
      EncodeIsSafe(MetaKeyName(l.metaCount));
      EncodeIsSafe(p.key);
      EncodeIsSafe(MetaValueName(l.metaCount));
      EncodeIsSafe(p.value);
    }
  }

  /** And it holds encoded text only, so the line can be parsed back. */
  lemma {:induction false} CopyIsClean(l: ListValue, src: seq<Param>)
    requires Clean(l.params) && WellMade(src)
    ensures Clean(CopyInto(l, src).params)
    decreases |src|
  {
    hide Clean, CopyParam, WellMadeEntry;
    if src != [] {
      CopyParamIsClean(l, src[0]);
      CopyIsClean(CopyParam(l, src[0]), src[1..]);
    }
  }

  // -------------------------------------------------- who speaks for a name

  lemma MetaNamesDiffer(j: nat, k: nat)
    ensures MetaKeyName(j) != MetaValueName(k) && MetaKeyName(j) != META_KEYS && MetaValueName(j) != META_KEYS
  {
    DecimalIsDigits(j);
    assert MetaKeyName(j)[12] != MetaValueName(k)[12];
    assert MetaKeyName(j)[15] == Decimal(j)[0];
    assert MetaValueName(j)[12] != META_KEYS[12];
  }

  /** Entry i, once copied, binds this name: its own, or the two generated for the k-th metadata entry. */
  predicate Speaks(src: seq<Param>, i: nat, name: seq<byte>)
    requires i < |src|
  {
    if src[i].raw then name == MetaKeyName(RawCount(src[..i])) || name == MetaValueName(RawCount(src[..i]))
    else src[i].key == name
  }

  function Spoken(src: seq<Param>, i: nat, name: seq<byte>): seq<byte>
    requires i < |src|
  {
    if !src[i].raw then DecodedValue(src[i].value)
    else if name == MetaKeyName(RawCount(src[..i])) then src[i].key
    else src[i].value
  }

  /** Nothing from entry i on binds the name. */
  predicate Silent(src: seq<Param>, i: nat, name: seq<byte>) {
    forall j :: i <= j < |src| ==> !Speaks(src, j, name)
  }

  predicate Holds(d: Dict, name: seq<byte>, value: seq<byte>) {
    name in d && d[name] == value
  }

  /** What the copy does to the entry of the hash under this name: the last entry that speaks for it decides. */
  predicate Decides(src: seq<Param>, name: seq<byte>, r: Dict, stored: Dict) {
    && (forall i :: 0 <= i < |src| && Speaks(src, i, name) && Silent(src, i + 1, name) ==>
          Holds(stored, name, Spoken(src, i, name)))
    && (Silent(src, 0, name) ==> (name in stored <==> name in r) && (name in r ==> stored[name] == r[name]))
  }

  ghost predicate DecidesAll(src: seq<Param>, r: Dict, stored: Dict) {
    forall name :: Decides(src, name, r, stored)
  }

  lemma {:induction false} BindSnoc(r: Dict, bs: seq<Binding>, b: Binding)
    ensures Bind(r, bs + [b]) == Bind(r, bs)[b.key := b.value]
    decreases |bs|
  {
    var all := bs + [b];
    if bs == [] {
      assert all[1..] == [];
    } else {
      assert all[0] == bs[0] && all[1..] == bs[1..] + [b];
      BindSnoc(r[bs[0].key := bs[0].value], bs[1..], b);
    }
  }

  lemma BindPlain(r: Dict, l: ListValue, p: Param)
    requires !p.raw
    ensures Bind(r, Bindings(CopyParam(l, p).params)) == Bind(r, Bindings(l.params))[p.key := DecodedValue(p.value)]
  {
    hide DecodedValue, Bind;
    BindSnoc(r, Bindings(l.params), BindingOf(p));
    assert Bindings(l.params + [p]) == Bindings(l.params) + [BindingOf(p)];
  }

  lemma BindPair(r: Dict, l: ListValue, p: Param)
    requires p.raw && NulFree(p.key) && NulFree(p.value)
    ensures Bind(r, Bindings(CopyParam(l, p).params)) ==
      Bind(r, Bindings(l.params))[MetaKeyName(l.metaCount) := p.key][MetaValueName(l.metaCount) := p.value]
  {
    hide DecodedValue, Bind, Encode, MetaKeyName, MetaValueName;
    var n, m := Encoded(MetaKeyName(l.metaCount), p.key), Encoded(MetaValueName(l.metaCount), p.value);
    MetaNamesEncodeToThemselves(l.metaCount);
    DecodedValueOfEncoded(p.key);
    DecodedValueOfEncoded(p.value);
    BindSnoc(r, Bindings(l.params), BindingOf(n));
    BindSnoc(r, Bindings(l.params + [n]), BindingOf(m));
    assert Bindings(l.params + [n]) == Bindings(l.params) + [BindingOf(n)];
    assert Bindings(l.params + [n] + [m]) == Bindings(l.params + [n]) + [BindingOf(m)];
  }

  /** What one more entry binds, in one step. */
  lemma BindEntry(r: Dict, front: seq<Param>, p: Param, name: seq<byte>)
    requires WellMadeEntry(p)
    ensures var src := front + [p]; var i := |front|;
      var was, now := Bind(r, Bindings(CopyInto(EMPTY, front).params)), Bind(r, Bindings(CopyInto(EMPTY, src).params));
      if Speaks(src, i, name) then Holds(now, name, Spoken(src, i, name))
      else (name in now <==> name in was) && (name in was ==> now[name] == was[name])
  {
    hide Bind, DecodedValue, MetaKeyName, MetaValueName, CopyParam, CopyInto, RawCount, Bindings, AllSafe;
    var l := CopyInto(EMPTY, front);
    assert (front + [p])[..|front|] == front;
    CopyIntoSnoc(EMPTY, front, p);
    CopyTotals(EMPTY, front);
    MetaNamesDiffer(l.metaCount, l.metaCount);
    if p.raw {
      BindPair(r, l, p);
    } else {
      BindPlain(r, l, p);
    }
  }

  lemma SpeaksInFront(front: seq<Param>, p: Param, i: nat, name: seq<byte>)
    requires i < |front|
    ensures Speaks(front + [p], i, name) == Speaks(front, i, name)
    ensures Spoken(front + [p], i, name) == Spoken(front, i, name)
  {
    assert (front + [p])[..i] == front[..i];
  }

  lemma DecidesSnoc(front: seq<Param>, p: Param, name: seq<byte>, r: Dict, was: Dict, now: Dict)
    requires Decides(front, name, r, was)
    requires var src, i := front + [p], |front|;
      if Speaks(src, i, name) then Holds(now, name, Spoken(src, i, name))
      else (name in now <==> name in was) && (name in was ==> now[name] == was[name])
    ensures Decides(front + [p], name, r, now)
  {
    var src := front + [p];
    forall i | 0 <= i < |front|
      ensures Speaks(src, i, name) == Speaks(front, i, name) && Spoken(src, i, name) == Spoken(front, i, name)
    {
      SpeaksInFront(front, p, i, name);
    }
    hide Speaks, Spoken, Holds;
    forall i | 0 <= i <= |front|
      ensures Silent(src, i, name) <==> Silent(front, i, name) && !Speaks(src, |front|, name)
    {
    }
    hide Silent;
    forall i | 0 <= i < |src| && Speaks(src, i, name) && Silent(src, i + 1, name)
      ensures Holds(now, name, Spoken(src, i, name))
    {
      if i < |front| {
        assert Silent(front, i + 1, name);
        HoldsStill(was, now, name, Spoken(src, i, name));
      }
    }
  }

  lemma HoldsStill(was: Dict, now: Dict, name: seq<byte>, value: seq<byte>)
    requires Holds(was, name, value) && (name in was ==> name in now && now[name] == was[name])
    ensures Holds(now, name, value)
  {
  }

  /** By induction on the copied list: the last entry that speaks for a name decides what it is bound to. */
  lemma {:induction false} CopyMeans(src: seq<Param>, r: Dict, name: seq<byte>)
    requires WellMade(src)
    ensures Decides(src, name, r, Bind(r, Bindings(CopyInto(EMPTY, src).params)))
    decreases |src|
  {
    if src == [] {
      assert Bindings([]) == [];
    } else {
      hide Bind, CopyInto, Bindings, Speaks, Spoken, WellMadeEntry, Decides;
      var front, p := src[..|src| - 1], src[|src| - 1];
      assert src == front + [p];
      CopyMeans(front, r, name);
      BindEntry(r, front, p, name);
      DecidesSnoc(front, p, name, r, Bind(r, Bindings(CopyInto(EMPTY, front).params)),
                  Bind(r, Bindings(CopyInto(EMPTY, src).params)));
    }
  }

  // ------------------------------------------------------------ the request

  /** The hash a parser of the rendered copy ends up with. */
  function StoredCopy(src: seq<Param>, r: Dict): Dict {
    Bind(r, Bindings(Sent(CopyInto(EMPTY, src))))
  }

  lemma StoredCopyIs(src: seq<Param>, r: Dict)
    requires RawCount(src) > 0
    ensures StoredCopy(src, r) ==
      Bind(r[META_KEYS := Decimal(RawCount(src))], Bindings(CopyInto(EMPTY, src).params))
  {
    hide Bind, DecodedValue, CopyInto, RawCount, Decimal;
    var l := CopyInto(EMPTY, src);
    CopyTotals(EMPTY, src);
    var count := Param(META_KEYS, Decimal(l.metaCount), false);
    CountDecodes(l.metaCount);
    assert Bindings(Sent(l)) == [BindingOf(count)] + Bindings(l.params);
    BindTwo(r, BindingOf(count), Bindings(l.params));
  }

  lemma CountDecodes(n: nat)
    ensures DecodedValue(Decimal(n)) == Decimal(n)
  {
    hide Encode;
    DecimalIsDigits(n);
    EncodeUnreserved(Decimal(n));
    DecodedValueOfEncoded(Decimal(n));
  }

  /**
   Main result: any mix of plain and metadata entries with at least one of the
   latter, copied into a new request and rendered, is accepted by the parser, and
   decides every entry of its hash on top of the metadata count.
   */
  lemma CopiedRequestParses(src: seq<Param>, r: Dict)
    requires WellMade(src) && RawCount(src) > 0
    ensures var l := CopyInto(EMPTY, src); var b := ReplyBuffer(l);
      && NoRaw(l.params) && Clean(l.params)
      && ParseReply(b, |b|, r) == Parsed(true, StoredCopy(src, r))
    ensures DecidesAll(src, r[META_KEYS := Decimal(RawCount(src))], StoredCopy(src, r))
  {
    hide ParseReply, Bind, ReplyBuffer, CopyInto, RawCount, Decides;
    var l := CopyInto(EMPTY, src);
    CopyTotals(EMPTY, src);
    CopyHasNoRaw(EMPTY, src);
    CopyIsClean(EMPTY, src);
    RoundTripWithMetadata(l, r);
    StoredCopyIs(src, r);
    var counted := r[META_KEYS := Decimal(RawCount(src))];
    forall name ensures Decides(src, name, counted, StoredCopy(src, r)) {
      CopyMeans(src, counted, name);
    }
  }

  /** No plain entry from i on has this name. */
  predicate Free(src: seq<Param>, i: nat, name: seq<byte>) {
    forall j :: i <= j < |src| ==> src[j].raw || src[j].key != name
  }

  lemma {:induction false} RawCountGrows(src: seq<Param>, i: nat, j: nat)
    requires i < j <= |src| && src[i].raw
    ensures RawCount(src[..i]) < RawCount(src[..j])
    decreases j
  {
    assert src[..j][..j - 1] == src[..j - 1];
    if i < j - 1 {
      RawCountGrows(src, i, j - 1);
    }
  }

  /** Only a plain entry can speak for a name generated for another entry. */
  lemma SpeaksForMeta(src: seq<Param>, i: nat, j: nat, name: seq<byte>)
    requires i < j < |src| && src[i].raw
    requires name == MetaKeyName(RawCount(src[..i])) || name == MetaValueName(RawCount(src[..i]))
    ensures Speaks(src, j, name) <==> !src[j].raw && src[j].key == name
  {
    hide RawCount, MetaKeyName, MetaValueName;
    var k, m := RawCount(src[..i]), RawCount(src[..j]);
    RawCountGrows(src, i, j);
    if src[j].raw && Speaks(src, j, name) {
      MetaNamesDiffer(k, m);
      MetaNamesDiffer(m, k);
      MetaNamesDistinct(k, m);
    }
  }

  lemma SpeakersAfter(src: seq<Param>, i: nat, name: seq<byte>)
    requires i < |src| && src[i].raw
    requires name == MetaKeyName(RawCount(src[..i])) || name == MetaValueName(RawCount(src[..i]))
    ensures Speaks(src, i, name)
    ensures forall j :: i < j < |src| ==> (Speaks(src, j, name) <==> !src[j].raw && src[j].key == name)
  {
    hide RawCount, MetaKeyName, MetaValueName;
    forall j | i < j < |src| ensures Speaks(src, j, name) <==> !src[j].raw && src[j].key == name {
      SpeaksForMeta(src, i, j, name);
    }
  }

  lemma SpeakersForCount(src: seq<Param>)
    ensures forall j :: 0 <= j < |src| ==> (Speaks(src, j, META_KEYS) <==> !src[j].raw && src[j].key == META_KEYS)
  {
    hide RawCount, MetaKeyName, MetaValueName;
    forall j | 0 <= j < |src| ensures Speaks(src, j, META_KEYS) <==> !src[j].raw && src[j].key == META_KEYS {
      MetaNamesDiffer(RawCount(src[..j]), 0);
    }
  }

  /** The last plain entry from i on with this name, if there is one, has this value. */
  predicate NotReplaced(src: seq<Param>, i: nat, name: seq<byte>, value: seq<byte>) {
    forall j :: i <= j < |src| && !src[j].raw && src[j].key == name && Free(src, j + 1, name) ==>
      DecodedValue(src[j].value) == value
  }

  lemma {:induction false} LastPlain(src: seq<Param>, i: nat, name: seq<byte>) returns (j: nat)
    requires i <= |src| && !Free(src, i, name)
    ensures i <= j < |src| && !src[j].raw && src[j].key == name && Free(src, j + 1, name)
    decreases |src| - i
  {
    if Free(src, i + 1, name) {
      return i;
    }
    j := LastPlain(src, i + 1, name);
  }

  /** From i on only plain entries speak for the name: its value is the given one, or that of the last of them. */
  lemma ValueIffNotReplaced(src: seq<Param>, r: Dict, stored: Dict, i: nat, name: seq<byte>, value: seq<byte>)
    requires i <= |src| && Decides(src, name, r, stored)
    requires forall j :: i <= j < |src| ==> (Speaks(src, j, name) <==> !src[j].raw && src[j].key == name)
    requires Free(src, i, name) ==> Holds(stored, name, value)
    ensures Holds(stored, name, value) <==> NotReplaced(src, i, name, value)
  {
    hide Speaks, Spoken, DecodedValue;
    if !Free(src, i, name) {
      var j := LastPlain(src, i, name);
      assert Silent(src, j + 1, name);
      SpokenPlain(src, j, name);
      assert stored[name] == DecodedValue(src[j].value);
    }
  }

  lemma SpokenPlain(src: seq<Param>, i: nat, name: seq<byte>)
    requires i < |src| && !src[i].raw
    ensures Spoken(src, i, name) == DecodedValue(src[i].value)
  {
  }

  /**
   The count is found under plugin.meta.keys, and the k-th metadata entry under
   plugin.meta.key{k} and plugin.meta.value{k}, if and only if no plain entry (for
   a pair: no later one) of that name replaces it with another value.
   */
  lemma MetadataArrivesIff(src: seq<Param>, r: Dict, i: nat)
    requires WellMade(src) && i < |src| && src[i].raw
    ensures RawCount(src) > 0
    ensures var stored, k, count := StoredCopy(src, r), RawCount(src[..i]), Decimal(RawCount(src));
      var key, value := MetaKeyName(k), MetaValueName(k);
      && (Holds(stored, META_KEYS, count) <==> NotReplaced(src, 0, META_KEYS, count))
      && (Holds(stored, key, src[i].key) <==> NotReplaced(src, i + 1, key, src[i].key))
      && (Holds(stored, value, src[i].value) <==> NotReplaced(src, i + 1, value, src[i].value))
  {
    hide StoredCopy, RawCount, MetaKeyName, MetaValueName, Decimal, Decides, NotReplaced;
    assert src[..|src|] == src;
    RawCountGrows(src, i, |src|);
    CopiedRequestParses(src, r);
    var count := Decimal(RawCount(src));
    var stored, counted, k := StoredCopy(src, r), r[META_KEYS := count], RawCount(src[..i]);
    SpeakersForCount(src);
    CountStays(src, counted, stored);
    ValueIffNotReplaced(src, counted, stored, 0, META_KEYS, count);
    PairIffNotReplaced(src, counted, stored, i);
  }

  lemma CountStays(src: seq<Param>, counted: Dict, stored: Dict)
    requires META_KEYS in counted && Decides(src, META_KEYS, counted, stored)
    ensures Free(src, 0, META_KEYS) ==> Holds(stored, META_KEYS, counted[META_KEYS])
  {
    hide Speaks, Spoken;
    SpeakersForCount(src);
  }

  lemma PairIffNotReplaced(src: seq<Param>, r: Dict, stored: Dict, i: nat)
    requires i < |src| && src[i].raw && DecidesAll(src, r, stored)
    ensures var k := RawCount(src[..i]); var key, value := MetaKeyName(k), MetaValueName(k);
      && (Holds(stored, key, src[i].key) <==> NotReplaced(src, i + 1, key, src[i].key))
      && (Holds(stored, value, src[i].value) <==> NotReplaced(src, i + 1, value, src[i].value))
  {
    hide RawCount, MetaKeyName, MetaValueName, NotReplaced, DecodedValue;
    var k := RawCount(src[..i]);
    MetaNamesDiffer(k, k);
    PairStays(src, r, stored, i, MetaKeyName(k));
    PairStays(src, r, stored, i, MetaValueName(k));
    SpeakersAfter(src, i, MetaKeyName(k));
    SpeakersAfter(src, i, MetaValueName(k));
    ValueIffNotReplaced(src, r, stored, i + 1, MetaKeyName(k), src[i].key);
    ValueIffNotReplaced(src, r, stored, i + 1, MetaValueName(k), src[i].value);
  }

  lemma PairStays(src: seq<Param>, r: Dict, stored: Dict, i: nat, name: seq<byte>)
    requires i < |src| && src[i].raw && Decides(src, name, r, stored)
    requires name == MetaKeyName(RawCount(src[..i])) || name == MetaValueName(RawCount(src[..i]))
    ensures Free(src, i + 1, name) ==> Holds(stored, name, Spoken(src, i, name))
  {
    hide Speaks, Spoken, RawCount, MetaKeyName, MetaValueName;
    SpeakersAfter(src, i, name);
  }

  /** A plain entry added last takes over its name, a generated one included. */
  lemma LastPlainIsStored(src: seq<Param>, p: Param, r: Dict)
    requires WellMade(src) && WellMadeEntry(p) && RawCount(src) > 0 && !p.raw
    ensures Holds(StoredCopy(src + [p], r), p.key, DecodedValue(p.value))
  {
    hide StoredCopy, DecodedValue, RawCount, WellMadeEntry, Bindings, CopyInto;
    var all := src + [p];
    RawCountSnoc(src, p);
    CopiedRequestParses(all, r);
    SpokenPlain(all, |src|, p.key);
    assert Silent(all, |src| + 1, p.key);
    assert Decides(all, p.key, r[META_KEYS := Decimal(RawCount(all))], StoredCopy(all, r));
  }

  /** So a pair can be hidden: the metadata entry a, b followed by the plain entry `plugin.meta.key0=z`. */
  lemma PairIsHidden()
    ensures var src := [Param([0x61], [0x62], true)]; var p := Param(MetaKeyName(0), [0x7a], false);
      WellMade(src) && WellMadeEntry(p) && Holds(StoredCopy(src + [p], map[]), MetaKeyName(0), [0x7a])
  {
    hide StoredCopy, MetaKeyName;
    var src, z := [Param([0x61], [0x62], true)], [0x7a];
    var p := Param(MetaKeyName(0), z, false);
    MetaNamesEncodeToThemselves(0);
    EncodeIsSafe(MetaKeyName(0));
    EncodeUnreserved(z);
    DecodedValueOfEncoded(z);
    hide Encode, DecodedValue;
    RawCountSnoc([], src[0]);
    assert [] + [src[0]] == src;
    LastPlainIsStored(src, p, map[]);
  }

  // ----------------------------------------------------------------- method

  lemma CopyThenAppend(src: seq<Param>, p: Param)
    requires !p.raw
    ensures CopyInto(EMPTY, src + [p]) == Append(CopyInto(EMPTY, src), p)
    ensures NoRaw(CopyInto(EMPTY, src + [p]).params)
  {
    CopyIntoSnoc(EMPTY, src, p);
    CopyHasNoRaw(EMPTY, src + [p]);
  }

  /** A request's list as the upload makes it: empty, the caller's entries copied in, then a parameter of its own. */
  method ListFrom(extra: ParameterList, key: CStr, value: CStr) returns (params: ParameterList)
    requires extra.Valid()
    ensures extra.Valid() && extra.Value() == old(extra.Value())
    ensures fresh(params) && params.Valid()
    ensures params.Value() == CopyInto(EMPTY, extra.Value().params + [Encoded(key, value)])
  {
    hide CopyInto, Encode, Views, TextLength;
    params := new ParameterList();
    params.CopyFrom(extra);
    CopyThenAppend(extra.Value().params, Encoded(key, value));
    params.AddParameter(key, value);
  }

  /** And its line, which `MetadataArrivesIff` is about. */
  method BuildFrom(cmd: CStr, extra: ParameterList, key: CStr, value: CStr) returns (request: array<byte>, size: nat)
    requires extra.Valid()
    ensures fresh(request) && request.Length > size
    ensures request[..size] == Render(cmd, CopyInto(EMPTY, old(extra.Value()).params + [Encoded(key, value)]))
  {
    hide CopyInto, Encode, Views, TextLength, Render;
    ghost var src := extra.Value().params;
    var params := ListFrom(extra, key, value);
    CopyThenAppend(src, Encoded(key, value));
    ListIsNotEmpty(params);
    var end;
    request, size, end := BuildRequest(cmd, params);
  }

  lemma ListIsNotEmpty(l: ParameterList)
    requires l.Valid()
    ensures l.count == |l.Value().params|
  {
  }
}
