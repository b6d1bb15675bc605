/**
 Request parameters (src/tracker.c): a singly linked list with running totals,
 and its metadata entries.  `ListValue` is the value a list denotes; the class
 below is the pointer structure, proved to denote it after every operation.
 */
module Parameters {
  import opened UrlCodec

  /** `raw` is the source's is_metadata: unencoded, to be named and encoded when copied into a request. */
  datatype Param = Param(key: seq<byte>, value: seq<byte>, raw: bool)

  datatype ListValue = ListValue(params: seq<Param>, metaCount: nat)

  // -------------------------------------------------------------- decimals

  function Digit(n: nat): byte
    requires n < 10
  {
    [0x30, 0x31, 0x32, 0x33, 0x34, 0x35, 0x36, 0x37, 0x38, 0x39][n]
  }

  /** What `%d` prints for a non-negative number. */
  function Decimal(n: nat): seq<byte> {
    if n < 10 then [Digit(n)] else Decimal(n / 10) + [Digit(n % 10)]
  }

  lemma {:induction false} DecimalIsDigits(n: nat)
    ensures Decimal(n) != []
    ensures forall i :: 0 <= i < |Decimal(n)| ==> IsDigit(Decimal(n)[i])
  {
    if n >= 10 {
      DecimalIsDigits(n / 10);
    }
  }

  /** The number a string of ASCII digits spells, as atoi reads it. */
  ghost function DecimalValue(s: seq<byte>): int {
    if s == [] then 0 else DecimalValue(s[..|s| - 1]) * 10 + (s[|s| - 1] as int - 0x30)
  }

  lemma DigitIsAscii(n: nat)
    requires n < 10
    ensures Digit(n) as int == 0x30 + n
  {
  }

  /** Reading a printed number gives it back, so different indexes have different names. */
  lemma {:induction false} DecimalRoundTrip(n: nat)
    ensures DecimalValue(Decimal(n)) == n
  {
    var s := Decimal(n);
    DigitIsAscii(n % 10);
    hide Digit;
    if n < 10 {
      assert s[..|s| - 1] == [];
    } else {
      DecimalRoundTrip(n / 10);
      assert s[..|s| - 1] == Decimal(n / 10);
    }
  }

  // ------------------------------------------------------- metadata naming

  // "plugin.meta.key"
  const META_KEY: seq<byte> :=
    [0x70, 0x6c, 0x75, 0x67, 0x69, 0x6e, 0x2e, 0x6d, 0x65, 0x74, 0x61, 0x2e, 0x6b, 0x65, 0x79]
  // "plugin.meta.value"
  const META_VALUE: seq<byte> :=
    [0x70, 0x6c, 0x75, 0x67, 0x69, 0x6e, 0x2e, 0x6d, 0x65, 0x74, 0x61, 0x2e, 0x76, 0x61, 0x6c, 0x75, 0x65]
  // "plugin.meta.keys="
  const META_KEYS_EQ: seq<byte> :=
    [0x70, 0x6c, 0x75, 0x67, 0x69, 0x6e, 0x2e, 0x6d, 0x65, 0x74, 0x61, 0x2e, 0x6b, 0x65, 0x79, 0x73, 0x3d]

  lemma MetaKeySpelled()
    ensures IsText(META_KEY, "plugin.meta.key")
  {
  }

  lemma MetaValueSpelled()
    ensures IsText(META_VALUE, "plugin.meta.value")
  {
  }

  lemma MetaKeysSpelled()
    ensures IsText(META_KEYS_EQ, "plugin.meta.keys=")
  {
  }

  lemma MetaNamesUnreserved()
    ensures forall i :: 0 <= i < |META_KEY| ==> Unreserved(META_KEY[i])
    ensures forall i :: 0 <= i < |META_VALUE| ==> Unreserved(META_VALUE[i])
  {
  }

  function MetaKeyName(k: nat): seq<byte> {
    META_KEY + Decimal(k)
  }

  function MetaValueName(k: nat): seq<byte> {
    META_VALUE + Decimal(k)
  }

  /** The generated names pass through the encoder unchanged. */
  lemma MetaNamesEncodeToThemselves(k: nat)
    ensures Encode(MetaKeyName(k)) == MetaKeyName(k)
    ensures Encode(MetaValueName(k)) == MetaValueName(k)
    ensures NulFree(MetaKeyName(k)) && NulFree(MetaValueName(k))
  {
    MetaNamesUnreserved();
    DecimalIsDigits(k);
    EncodeUnreserved(MetaKeyName(k));
    EncodeUnreserved(MetaValueName(k));
  }

  /** Different indexes give different generated names; only a plain entry can share one. */
  lemma MetaNamesDistinct(j: nat, k: nat)
    requires MetaKeyName(j) == MetaKeyName(k) || MetaValueName(j) == MetaValueName(k)
    ensures j == k
  {
    DecimalRoundTrip(j);
    DecimalRoundTrip(k);
    assert Decimal(j) == MetaKeyName(j)[|META_KEY|..] == MetaValueName(j)[|META_VALUE|..];
    assert Decimal(k) == MetaKeyName(k)[|META_KEY|..] == MetaValueName(k)[|META_VALUE|..];
  }

  // ------------------------------------------------------- list operations

  function Encoded(key: seq<byte>, value: seq<byte>): Param {
    Param(Encode(key), Encode(value), false)
  }

  function Append(l: ListValue, p: Param): ListValue {
    l.(params := l.params + [p])
  }

  function AddPrepared(l: ListValue, key: seq<byte>, value: seq<byte>): ListValue {
    var named := Append(l, Encoded(MetaKeyName(l.metaCount), key));
    Append(named, Encoded(MetaValueName(l.metaCount), value)).(metaCount := l.metaCount + 1)
  }

  function AddRaw(l: ListValue, key: seq<byte>, value: seq<byte>): ListValue {
    Append(l, Param(key, value, true)).(metaCount := l.metaCount + 1)
  }

  function CopyParam(l: ListValue, p: Param): ListValue {
    if p.raw then AddPrepared(l, p.key, p.value) else Append(l, p)
  }

  function CopyInto(l: ListValue, src: seq<Param>): ListValue
    decreases |src|
  {
    if src == [] then l else CopyInto(CopyParam(l, src[0]), src[1..])
  }

  function RawCount(ps: seq<Param>): nat {
    if ps == [] then 0 else RawCount(ps[..|ps| - 1]) + if ps[|ps| - 1].raw then 1 else 0
  }

  lemma {:induction false} CopyIntoSnoc(l: ListValue, front: seq<Param>, p: Param)
    ensures CopyInto(l, front + [p]) == CopyParam(CopyInto(l, front), p)
    decreases |front|
  {
    var src := front + [p];
    if front == [] {
      assert src[1..] == [];
    } else {
      assert src[0] == front[0] && src[1..] == front[1..] + [p];
      CopyIntoSnoc(CopyParam(l, front[0]), front[1..], p);
    }
  }

  lemma CopyNothing(l: ListValue)
    ensures CopyInto(l, []) == l
  {
  }

  lemma CopyIntoStep(l: ListValue, src: seq<Param>, i: nat)
    requires i < |src|
    ensures CopyInto(l, src[i..]) == CopyInto(CopyParam(l, src[i]), src[i + 1..])
  {
    assert src[i..][0] == src[i] && src[i..][1..] == src[i + 1..];
  }

  lemma RawCountSnoc(front: seq<Param>, p: Param)
    ensures RawCount(front + [p]) == RawCount(front) + if p.raw then 1 else 0
  {
    assert (front + [p])[..|front|] == front;
  }

  /** Where the i-th copied entry lands: each earlier metadata entry took two places. */
  function Place(src: seq<Param>, i: nat): nat
    requires i < |src|
  {
    i + RawCount(src[..i])
  }

  lemma {:induction false} CopyTotals(l: ListValue, src: seq<Param>)
    ensures var r := CopyInto(l, src);
      && r.metaCount == l.metaCount + RawCount(src)
      && |r.params| == |l.params| + |src| + RawCount(src)
      && l.params <= r.params
    decreases |src|
  {
    if src != [] {
      var front, p := src[..|src| - 1], src[|src| - 1];
      assert src == front + [p];
      CopyTotals(l, front);
      CopyIntoSnoc(l, front, p);
      RawCountSnoc(front, p);
      CopyParamGrows(CopyInto(l, front), p);
    }
  }

  /**
   Copying any mix of entries: plain entries keep their order and text, and the
   k-th metadata entry becomes the adjacent pair plugin.meta.key{k},
   plugin.meta.value{k}, with k counting on from the list's metaCount without gaps.
   */
  lemma {:induction false} CopyNumbersMetadata(l: ListValue, src: seq<Param>, i: nat)
    requires i < |src|
    ensures CopiedAt(l, src, CopyInto(l, src), i)
    decreases |src|
  {
    var front, p := src[..|src| - 1], src[|src| - 1];
    assert src == front + [p];
    var mid := CopyInto(l, front);
    CopyIntoSnoc(l, front, p);
    if i < |front| {
      CopyNumbersMetadata(l, front, i);
      CopyKeepsEarlier(l, front, p, mid, i);
    } else {
      CopyTotals(l, front);
      CopyPlacesLast(l, front, p, mid);
    }
  }

  ghost predicate CopiedAt(l: ListValue, src: seq<Param>, r: ListValue, i: nat)
    requires i < |src|
  {
    var k, at := l.metaCount + RawCount(src[..i]), |l.params| + Place(src, i);
    if src[i].raw then
      && at + 1 < |r.params|
      && r.params[at] == Encoded(MetaKeyName(k), src[i].key)
      && r.params[at + 1] == Encoded(MetaValueName(k), src[i].value)
    else
      && at < |r.params|
      && r.params[at] == src[i]
  }

  lemma CopyParamGrows(l: ListValue, p: Param)
    ensures var r := CopyParam(l, p);
      && l.params <= r.params
      && |r.params| == |l.params| + 1 + (if p.raw then 1 else 0)
      && r.metaCount == l.metaCount + (if p.raw then 1 else 0)
  {
  }

  lemma CopyKeepsEarlier(l: ListValue, front: seq<Param>, p: Param, mid: ListValue, i: nat)
    requires i < |front| && CopiedAt(l, front, mid, i)
    ensures CopiedAt(l, front + [p], CopyParam(mid, p), i)
  {
    CopyParamGrows(mid, p);
    assert (front + [p])[..i] == front[..i];
  }

  lemma CopyParamAdds(l: ListValue, p: Param)
    ensures CopyParam(l, p).params == l.params +
      if p.raw then [Encoded(MetaKeyName(l.metaCount), p.key), Encoded(MetaValueName(l.metaCount), p.value)] else [p]
  {
    hide Encoded, MetaKeyName, MetaValueName;
  }

  lemma CopyPlacesLast(l: ListValue, front: seq<Param>, p: Param, mid: ListValue)
    requires mid.metaCount == l.metaCount + RawCount(front)
    requires |mid.params| == |l.params| + |front| + RawCount(front)
    ensures CopiedAt(l, front + [p], CopyParam(mid, p), |front|)
  {
    hide RawCount, CopyParam, Encoded, MetaKeyName, MetaValueName;
    var src, at := front + [p], |mid.params|;
    assert src[..|front|] == front && src[|front|] == p;
    assert |l.params| + Place(src, |front|) == at;
    CopyParamAdds(mid, p);
    hide Place;
    if p.raw {
      var name, value := Encoded(MetaKeyName(mid.metaCount), p.key), Encoded(MetaValueName(mid.metaCount), p.value);
      AppendTwo(mid.params, name, value);
    }
  }

  lemma AppendTwo(ps: seq<Param>, a: Param, b: Param)
    ensures (ps + [a, b])[|ps|] == a && (ps + [a, b])[|ps| + 1] == b
  {
  }

  // ---------------------------------------------------------- text lengths

  /** The bytes key=value of the entries take, without separators. */
  function TextLength(ps: seq<Param>): nat {
    if ps == [] then 0
    else TextLength(ps[..|ps| - 1]) + EntryLength(ps[|ps| - 1])
  }

  /** A raw entry is not counted: a list holding one is never rendered. */
  function EntryLength(p: Param): nat {
    if p.raw then 0 else |p.key| + |p.value| + 1
  }

  // ------------------------------------------------------ the linked list

  class Node {
    const key: seq<byte>
    const keyLength: nat
    const value: seq<byte>
    const valueLength: nat
    const isMetadata: bool
    var next: Node?

    constructor (key: seq<byte>, keyLength: nat, value: seq<byte>, valueLength: nat, isMetadata: bool)
      ensures this.key == key && this.keyLength == keyLength
      ensures this.value == value && this.valueLength == valueLength
      ensures this.isMetadata == isMetadata && next == null
    {
      this.key, this.keyLength := key, keyLength;
      this.value, this.valueLength := value, valueLength;
      this.isMetadata, next := isMetadata, null;
    }

    /** C strings whose stored lengths are the string lengths, zero for metadata not yet encoded. */
    ghost predicate Measured() {
      && NulFree(key)
      && NulFree(value)
      && keyLength == (if isMetadata then 0 else |key|)
      && valueLength == (if isMetadata then 0 else |value|)
    }

    ghost function View(): Param {
      Param(key, value, isMetadata)
    }
  }

  ghost function Views(nodes: seq<Node>): (ps: seq<Param>)
    ensures |ps| == |nodes| && forall i :: 0 <= i < |ps| ==> ps[i] == nodes[i].View()
  {
    seq(|nodes|, i requires 0 <= i < |nodes| => nodes[i].View())
  }

  lemma ViewsAppend(nodes: seq<Node>, p: Node)
    ensures Views(nodes + [p]) == Views(nodes) + [p.View()]
    ensures TextLength(Views(nodes + [p])) == TextLength(Views(nodes)) + EntryLength(p.View())
  {
    assert Views(nodes + [p]) == Views(nodes) + [p.View()];
    assert (Views(nodes) + [p.View()])[..|nodes|] == Views(nodes);
  }

  class ParameterList {
    var head: Node?
    var count: nat
    var strLen: nat
    var metaCount: nat
    ghost var nodes: seq<Node>
    ghost var repr: set<Node>

    ghost predicate Linked()
      reads this`head, this`nodes, this`repr, repr
    {
      && (forall i :: 0 <= i < |nodes| ==> nodes[i] in repr)
      && (head == null <==> nodes == [])
      && (nodes != [] ==> head == nodes[0] && nodes[|nodes| - 1].next == null)
      && (forall i {:trigger nodes[i].next} :: 0 <= i < |nodes| - 1 ==> nodes[i].next == nodes[i + 1])
      && (forall i, j :: 0 <= i < j < |nodes| ==> nodes[i] != nodes[j])
    }

    ghost predicate Valid()
      reads this`head, this`nodes, this`repr, this`count, this`strLen, repr
    {
      && Linked()
      && (forall i :: 0 <= i < |nodes| ==> nodes[i].Measured())
      && count == |nodes|
      && strLen == TextLength(Views(nodes))
    }

    ghost function Value(): ListValue
      reads this`nodes, this`metaCount
    {
      ListValue(Views(nodes), metaCount)
    }

    /** mfs_tracker_init_parameters. */
    constructor ()
      ensures Valid() && repr == {} && Value() == ListValue([], 0)
    {
      head, count, strLen, metaCount, nodes, repr := null, 0, 0, 0, [], {};
    }

    /** The append both list functions share: walk to the tail and link. */
    method Link(p: Node)
      requires Linked() && p.next == null && p !in repr
      modifies this`head, this`nodes, this`repr, repr
      ensures Linked() && nodes == old(nodes) + [p] && repr == old(repr) + {p}
    {
      if head == null {
        head := p;
      } else {
        var tail := head;
        ghost var i := 0;
        while tail.next != null
          invariant 0 <= i < |nodes| && tail == nodes[i]
          decreases |nodes| - i
        {
          tail, i := tail.next, i + 1;
        }
        tail.next := p;
      }
      nodes, repr := nodes + [p], repr + {p};
    }

    /** mfs_tracker_add_parameter_pointers: the caller supplies encoded strings and their lengths. */
    method AddPointers(key: CStr, keyLength: nat, value: CStr, valueLength: nat)
      requires Valid() && keyLength == |key| && valueLength == |value|
      modifies this, repr
      ensures Valid() && Value() == Append(old(Value()), Param(key, value, false))
      ensures fresh(repr - old(repr))
    {
      hide TextLength, Views;
      var p := new Node(key, keyLength, value, valueLength, false);
      count := count + 1;
      strLen := strLen + keyLength + valueLength + 1;
      Link(p);
      ViewsAppend(old(nodes), p);
    }

    /** mfs_tracker_add_parameter. */
    method AddParameter(key: CStr, value: CStr)
      requires Valid()
      modifies this, repr
      ensures Valid() && Value() == Append(old(Value()), Encoded(key, value))
      ensures fresh(repr - old(repr))
    {
      var ek, kl := UrlEncode(key);
      var ev, vl := UrlEncode(value);
      EncodeIsSafe(key);
      EncodeIsSafe(value);
      AddPointers(ek[..kl], kl, ev[..vl], vl);
    }

    method AddRawNode(key: CStr, value: CStr)
      requires Valid()
      modifies this, repr
      ensures Valid() && metaCount == old(metaCount)
      ensures Views(nodes) == Views(old(nodes)) + [Param(key, value, true)]
      ensures fresh(repr - old(repr))
    {
      hide TextLength, Views;
      var p := new Node(key, 0, value, 0, true);
      count := count + 1;
      Link(p);
      ViewsAppend(old(nodes), p);
    }

    method AddNamedPair(keyName: CStr, key: CStr, valueName: CStr, value: CStr)
      requires Valid()
      modifies this, repr
      ensures Valid() && fresh(repr - old(repr))
      ensures Value() == Append(Append(old(Value()), Encoded(keyName, key)), Encoded(valueName, value))
    {
      AddParameter(keyName, key);
      AddParameter(valueName, value);
    }

    /** mfs_tracker_add_meta_data. */
    method AddMetaData(key: CStr, value: CStr, prepare: bool)
      requires Valid()
      modifies this, repr
      ensures Valid() && fresh(repr - old(repr))
      ensures Value() == if prepare then AddPrepared(old(Value()), key, value) else AddRaw(old(Value()), key, value)
      ensures var was, n := old(Value()), old(metaCount);
        Value() == ListValue(was.params +
          if prepare then
            [Param(META_KEY + Decimal(n), Encode(key), false),
             Param(META_VALUE + Decimal(n), Encode(value), false)]
          else [Param(key, value, true)], n + 1)
    {
      hide Encode;
      if prepare {
        MetaNamesEncodeToThemselves(metaCount);
        AddNamedPair(MetaKeyName(metaCount), key, MetaValueName(metaCount), value);
      } else {
        AddRawNode(key, value);
      }
      metaCount := metaCount + 1;
    }

    /** The copy loop's body: metadata is named and encoded, other entries share their strings. */
    method CopyNode(p: Node)
      requires Valid() && p.Measured()
      modifies this, repr
      ensures Valid() && fresh(repr - old(repr))
      ensures Value() == CopyParam(old(Value()), p.View())
    {
      if p.isMetadata {
        AddMetaData(p.key, p.value, true);
      } else {
        AddPointers(p.key, p.keyLength, p.value, p.valueLength);
      }
    }

    /** mfs_tracker_copy_parameter_pointers, on the destination; the two lists share no node. */
    method CopyFrom(src: ParameterList)
      requires Valid() && src.Valid() && src != this
      requires src.repr !! repr
      modifies this, repr
      ensures Valid() && Value() == CopyInto(old(Value()), old(src.Value().params))
      ensures fresh(repr - old(repr)) && src.repr !! repr
      ensures src.Valid() && src.Value() == old(src.Value()) && src.repr == old(src.repr)
    {
      hide CopyParam, CopyInto, Views, TextLength;
      var param := src.head;
      ghost var i := 0;
      ghost var ps := Views(src.nodes);
      assert ps[0..] == ps;
      while param != null
        invariant Valid() && src.Valid() && 0 <= i <= |src.nodes|
        invariant src.nodes == old(src.nodes) && src.metaCount == old(src.metaCount)
        invariant param == if i < |src.nodes| then src.nodes[i] else null
        invariant src.repr == old(src.repr) && src.repr !! repr
        invariant fresh(repr - old(repr))
        invariant CopyInto(old(Value()), ps) == CopyInto(Value(), ps[i..])
        decreases |src.nodes| - i
      {
        CopyIntoStep(Value(), ps, i);
        assert ps[i] == param.View();
        CopyNode(param);
        param, i := param.next, i + 1;
      }
      assert ps[i..] == [];
      CopyNothing(Value());
    }
  }
}
