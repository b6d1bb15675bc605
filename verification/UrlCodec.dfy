/**
 The percent codec of the tracker protocol (src/tracker.c).  Bytes are 8-bit
 vectors: the C code computes on `char` and stores the low eight bits, and
 wrap-around of `bv8` is exactly that truncation.
 */
module UrlCodec {

  type byte = bv8

  const NUL: byte := 0
  const LF: byte := 0x0a
  const CR: byte := 0x0d
  const SPACE: byte := 0x20
  const PERCENT: byte := 0x25
  const AMP: byte := 0x26
  const PLUS: byte := 0x2b
  const EQ: byte := 0x3d

  /** The bytes are the ASCII codes of the text. */
  predicate IsText(s: seq<byte>, text: string) {
    |s| == |text| && forall i :: 0 <= i < |s| ==> s[i] as int == text[i] as int
  }

  predicate NulFree(s: seq<byte>) {
    NUL !in s
  }

  /** The contents of a C string: everything before its terminating NUL. */
  type CStr = s: seq<byte> | NulFree(s) witness []

  predicate IsDigit(b: byte) {
    0x30 <= b <= 0x39
  }

  predicate IsAlnum(b: byte) {
    IsDigit(b) || 0x41 <= b <= 0x5a || 0x61 <= b <= 0x7a
  }

  /** Section 2.3 of RFC 3986: ALPHA / DIGIT / "-" / "." / "_" / "~". */
  predicate Unreserved(b: byte) {
    IsAlnum(b) || b == 0x2d || b == 0x5f || b == 0x2e || b == 0x7e
  }

  function ToLower(b: byte): byte {
    if 0x41 <= b <= 0x5a then b + 0x20 else b
  }

  /** Total, like the C function: a non-hex character gives some byte. */
  function FromHex(ch: byte): byte {
    if IsDigit(ch) then ch - 0x30 else ToLower(ch) - 0x61 + 10
  }

  function ToHex(code: byte): byte {
    var n := code & 15;
    if n < 10 then 0x30 + n else 0x57 + n
  }

  function HexPair(hi: byte, lo: byte): byte {
    (FromHex(hi) << 4) | FromHex(lo)
  }

  function EncodeByte(b: byte): seq<byte> {
    if Unreserved(b) then [b]
    else if b == SPACE then [PLUS]
    else [PERCENT, ToHex(b >> 4), ToHex(b & 15)]
  }

  function Encode(s: seq<byte>): seq<byte> {
    if s == [] then [] else EncodeByte(s[0]) + Encode(s[1..])
  }

  /** A `%` without two characters after it is dropped, as in the C loop. */
  function Decode(s: seq<byte>): seq<byte> {
    if s == [] then []
    else if s[0] == PERCENT then
      if |s| >= 3 then [HexPair(s[1], s[2])] + Decode(s[3..]) else Decode(s[1..])
    else if s[0] == PLUS then [SPACE] + Decode(s[1..])
    else [s[0]] + Decode(s[1..])
  }

  /** What an encoded string may contain: nothing the line format uses. */
  predicate Safe(b: byte) {
    Unreserved(b) || b == PLUS || b == PERCENT
  }

  predicate AllSafe(s: seq<byte>) {
    forall i :: 0 <= i < |s| ==> Safe(s[i])
  }

  // ---------------------------------------------------------------- lemmas

  lemma HexRoundTrip(b: byte)
    ensures HexPair(ToHex(b >> 4), ToHex(b & 15)) == b
    ensures Safe(ToHex(b >> 4)) && Safe(ToHex(b & 15))
  {
    NibbleRoundTrip(b >> 4);
    NibbleRoundTrip(b & 15);
    assert ((b >> 4) << 4) | (b & 15) == b;
  }

  lemma NibbleRoundTrip(n: byte)
    requires n <= 15
    ensures FromHex(ToHex(n)) == n && Safe(ToHex(n))
  {
    assert n & 15 == n;
  }

  /** The code of one byte decodes to that byte, whatever follows. */
  lemma DecodeEncodeByte(b: byte, rest: seq<byte>)
    ensures Decode(EncodeByte(b) + rest) == [b] + Decode(rest)
  {
    var e := EncodeByte(b) + rest;
    if Unreserved(b) || b == SPACE {
      assert e[1..] == rest;
    } else {
      HexRoundTrip(b);
      hide HexPair, ToHex;
      assert e[3..] == rest;
    }
  }

  /** Decoding undoes encoding, for every byte string. */
  lemma {:induction false} DecodeEncode(s: seq<byte>)
    ensures Decode(Encode(s)) == s
  {
    hide EncodeByte;
    if s != [] {
      DecodeEncode(s[1..]);
      DecodeEncodeByte(s[0], Encode(s[1..]));
    }
  }

  /** No byte of an encoding is `&`, `=`, space, CR, LF or NUL, and it is at most three times as long. */
  lemma {:induction false} EncodeIsSafe(s: seq<byte>)
    ensures AllSafe(Encode(s))
    ensures forall b :: b in Encode(s) ==> b !in {AMP, EQ, SPACE, CR, LF, NUL}
    ensures |s| <= |Encode(s)| <= 3 * |s|
  {
    hide EncodeByte, Safe;
    if s != [] {
      EncodeIsSafe(s[1..]);
      EncodeByteIsSafe(s[0]);
    }
    forall b | b in Encode(s) ensures b !in {AMP, EQ, SPACE, CR, LF, NUL} {
      SafeIsNoDelimiter(b);
    }
  }

  lemma EncodeByteIsSafe(b: byte)
    ensures 1 <= |EncodeByte(b)| <= 3 && forall i :: 0 <= i < |EncodeByte(b)| ==> Safe(EncodeByte(b)[i])
  {
    if !Unreserved(b) && b != SPACE {
      HexRoundTrip(b);
    }
  }

  lemma SafeIsNoDelimiter(b: byte)
    ensures Safe(b) ==> b !in {AMP, EQ, SPACE, CR, LF, NUL}
  {
  }

  /** Unreserved text is its own encoding. */
  lemma {:induction false} EncodeUnreserved(s: seq<byte>)
    requires forall i :: 0 <= i < |s| ==> Unreserved(s[i])
    ensures Encode(s) == s
  {
    if s != [] {
      EncodeUnreserved(s[1..]);
    }
  }

  /** Distinct strings have distinct encodings, so encoded keys may stand for keys. */
  lemma EncodeInjective(s: seq<byte>, t: seq<byte>)
    requires Encode(s) == Encode(t)
    ensures s == t
  {
    DecodeEncode(s);
    DecodeEncode(t);
  }

  lemma {:induction false} DecodeNeverGrows(s: seq<byte>)
    ensures |Decode(s)| <= |s|
    decreases |s|
  {
    if s == [] {
    } else if s[0] == PERCENT && |s| >= 3 {
      DecodeNeverGrows(s[3..]);
    } else {
      DecodeNeverGrows(s[1..]);
    }
  }

  lemma EncodeStep(s: seq<byte>, i: nat, done: seq<byte>)
    requires i < |s|
    ensures done + Encode(s[i..]) == (done + EncodeByte(s[i])) + Encode(s[i + 1..])
  {
    assert s[i..][0] == s[i] && s[i..][1..] == s[i + 1..];
  }

  // ------------------------------------------------------- what the codec is

  /** 0-9, A-Z, a-z, and - . _ ~, one by one. */
  predicate Listed(b: byte) {
    || b in {0x30, 0x31, 0x32, 0x33, 0x34, 0x35, 0x36, 0x37, 0x38, 0x39}
    || b in {0x41, 0x42, 0x43, 0x44, 0x45, 0x46, 0x47, 0x48, 0x49, 0x4a}
    || b in {0x4b, 0x4c, 0x4d, 0x4e, 0x4f, 0x50, 0x51, 0x52, 0x53, 0x54}
    || b in {0x55, 0x56, 0x57, 0x58, 0x59, 0x5a}
    || b in {0x61, 0x62, 0x63, 0x64, 0x65, 0x66, 0x67, 0x68, 0x69, 0x6a}
    || b in {0x6b, 0x6c, 0x6d, 0x6e, 0x6f, 0x70, 0x71, 0x72, 0x73, 0x74}
    || b in {0x75, 0x76, 0x77, 0x78, 0x79, 0x7a}
    || b in {0x2d, 0x2e, 0x5f, 0x7e}
  }

  /** The table of hexadecimal digits, either case. */
  predicate Spells(ch: byte, n: byte) {
    match n
    case 0 => ch == 0x30
    case 1 => ch == 0x31
    case 2 => ch == 0x32
    case 3 => ch == 0x33
    case 4 => ch == 0x34
    case 5 => ch == 0x35
    case 6 => ch == 0x36
    case 7 => ch == 0x37
    case 8 => ch == 0x38
    case 9 => ch == 0x39
    case 10 => ch == 0x41 || ch == 0x61
    case 11 => ch == 0x42 || ch == 0x62
    case 12 => ch == 0x43 || ch == 0x63
    case 13 => ch == 0x44 || ch == 0x64
    case 14 => ch == 0x45 || ch == 0x65
    case 15 => ch == 0x46 || ch == 0x66
    case _ => false
  }

  predicate IsUpper(ch: byte) {
    0x41 <= ch <= 0x5a
  }

  lemma SpellsIsFromHex(ch: byte, n: byte)
    requires Spells(ch, n)
    ensures n <= 15 && FromHex(ch) == n
  {
  }

  lemma UnreservedIsTable(b: byte)
    ensures Unreserved(b) <==> Listed(b)
  {
  }

  /** A percent sign and two hexadecimal digits of either case stand for the byte they spell. */
  lemma DecodeEscape(b: byte, h: byte, l: byte, rest: seq<byte>)
    requires Spells(h, b >> 4) && Spells(l, b & 15)
    ensures Decode([PERCENT, h, l] + rest) == [b] + Decode(rest)
  {
    SpellsIsFromHex(h, b >> 4);
    SpellsIsFromHex(l, b & 15);
    assert ((b >> 4) << 4) | (b & 15) == b;
    var e := [PERCENT, h, l] + rest;
    hide FromHex;
    assert e[3..] == rest && e[1] == h && e[2] == l;
  }

  /** `+` stands for a space, and every byte but these two for itself. */
  lemma DecodePlain(b: byte, rest: seq<byte>)
    requires b != PERCENT
    ensures Decode([b] + rest) == [if b == 0x2b then 0x20 else b] + Decode(rest)
  {
    assert ([b] + rest)[1..] == rest;
  }

  /** A percent sign too close to the end is dropped. */
  lemma DecodeCutOff(rest: seq<byte>)
    requires |rest| < 2
    ensures Decode([0x25] + rest) == Decode(rest)
  {
    assert ([0x25] + rest)[1..] == rest;
  }

  /** What the encoder writes for one byte: itself, `+`, or `%` and two lower-case digits. */
  lemma EncodeOne(b: byte)
    ensures Listed(b) ==> Encode([b]) == [b]
    ensures b == 0x20 ==> Encode([b]) == [0x2b]
    ensures !Listed(b) && b != 0x20 ==>
      var e := Encode([b]);
      && |e| == 3 && e[0] == 0x25
      && Spells(e[1], b >> 4) && !IsUpper(e[1]) && Spells(e[2], b & 15) && !IsUpper(e[2])
  {
    UnreservedIsTable(b);
    ToHexSpells(b >> 4);
    ToHexSpells(b & 15);
    assert [b][1..] == [];
    assert Encode([b]) == EncodeByte(b) + [];
    hide ToHex, Spells, Listed;
  }

  lemma ToHexSpells(n: byte)
    requires n <= 15
    ensures Spells(ToHex(n), n) && !IsUpper(ToHex(n))
  {
    assert n & 15 == n;
  }

  lemma {:induction false} EncodeConcat(s: seq<byte>, t: seq<byte>)
    ensures Encode(s + t) == Encode(s) + Encode(t)
  {
    hide EncodeByte;
    if s == [] {
      assert s + t == t;
    } else {
      assert (s + t)[1..] == s[1..] + t;
      EncodeConcat(s[1..], t);
    }
  }

  /** A way any encoder may write `s`: bytes as themselves, escaped in either case, or a space as `+`. */
  predicate Encodes(e: seq<byte>, s: seq<byte>)
    decreases |s|
  {
    if s == [] then e == []
    else
      || (e != [] && e[0] == s[0] && e[0] != 0x25 && e[0] != 0x2b && Encodes(e[1..], s[1..]))
      || (e != [] && e[0] == 0x2b && s[0] == 0x20 && Encodes(e[1..], s[1..]))
      || (|e| >= 3 && e[0] == 0x25 && Spells(e[1], s[0] >> 4) && Spells(e[2], s[0] & 15) && Encodes(e[3..], s[1..]))
  }

  /** Decoding undoes every encoder, whatever it escapes and in whichever case. */
  lemma {:induction false} DecodeAnyEncoding(e: seq<byte>, s: seq<byte>)
    requires Encodes(e, s)
    ensures Decode(e) == s
    decreases |s|
  {
    hide Decode, Spells;
    if s == [] {
      DecodeNothing();
    } else if |e| >= 3 && e[0] == 0x25 {
      assert e == [PERCENT, e[1], e[2]] + e[3..];
      DecodeEscape(s[0], e[1], e[2], e[3..]);
      DecodeAnyEncoding(e[3..], s[1..]);
    } else {
      assert e == [e[0]] + e[1..];
      DecodePlain(e[0], e[1..]);
      DecodeAnyEncoding(e[1..], s[1..]);
    }
  }

  lemma DecodeNothing()
    ensures Decode([]) == []
  {
  }

  // --------------------------------------------------------------- methods

  /** The body of the encoding loop: one input byte becomes one or three output bytes. */
  method PutEncoded(buf: array<byte>, pos: nat, b: byte) returns (next: nat)
    requires pos + 3 < buf.Length
    modifies buf
    ensures pos < next <= pos + 3 && buf[..next] == old(buf[..pos]) + EncodeByte(b)
  {
    if Unreserved(b) {
      buf[pos] := b;
      next := pos + 1;
    } else if b == SPACE {
      buf[pos] := PLUS;
      next := pos + 1;
    } else {
      buf[pos], buf[pos + 1], buf[pos + 2] := PERCENT, ToHex(b >> 4), ToHex(b & 15);
      next := pos + 3;
    }
    assert buf[..next] == buf[..pos] + buf[pos..next];
  }

  /** mfs_tracker_url_encode: fills a buffer of strlen * 3 + 1 bytes and reports the length written. */
  method UrlEncode(raw: CStr) returns (buf: array<byte>, length: nat)
    ensures fresh(buf) && buf.Length == 3 * |raw| + 1
    ensures length < buf.Length && buf[..length] == Encode(raw) && buf[length] == NUL
  {
    buf := new byte[3 * |raw| + 1];
    length := 0;
    var i := 0;
    assert buf[..0] + Encode(raw[0..]) == Encode(raw);
    while i < |raw|
      invariant 0 <= i <= |raw| && 0 <= length <= 3 * i
      invariant buf[..length] + Encode(raw[i..]) == Encode(raw)
    {
      EncodeStep(raw, i, buf[..length]);
      length := PutEncoded(buf, length, raw[i]);
      i := i + 1;
    }
    buf[length] := NUL;
  }

  /** The body of the decoding loop: how far it reads and what it appends. */
  method DecodeOne(s: CStr, i: nat) returns (out: seq<byte>, next: nat)
    requires i < |s|
    ensures i < next <= |s| && |out| <= next - i
    ensures Decode(s[i..]) == out + Decode(s[next..])
    ensures |out| <= 1
  {
    ghost var rest := s[i..];
    assert rest[1..] == s[i + 1..];
    if s[i] == PERCENT {
      if i + 2 < |s| {
        assert rest[3..] == s[i + 3..];
        return [HexPair(s[i + 1], s[i + 2])], i + 3;
      }
      return [], i + 1;
    } else if s[i] == PLUS {
      return [SPACE], i + 1;
    }
    return [s[i]], i + 1;
  }

  /** mfs_tracker_url_decode: fills a buffer of strlen + 1 bytes. */
  method UrlDecode(encoded: CStr) returns (buf: array<byte>, length: nat)
    ensures fresh(buf) && buf.Length == |encoded| + 1
    ensures length < buf.Length && buf[..length] == Decode(encoded) && buf[length] == NUL
  {
    buf := new byte[|encoded| + 1];
    length := 0;
    var i := 0;
    assert buf[..0] + Decode(encoded[0..]) == Decode(encoded);
    while i < |encoded|
      invariant 0 <= length <= i <= |encoded|
      invariant buf[..length] + Decode(encoded[i..]) == Decode(encoded)
    {
      ghost var before := buf[..length];
      var out, next := DecodeOne(encoded, i);
      assert before + (out + Decode(encoded[next..])) == (before + out) + Decode(encoded[next..]);
      if |out| == 1 {
        buf[length] := out[0];
        length := length + 1;
      }
      assert buf[..length] == before + out;
      i := next;
    }
    buf[length] := NUL;
  }
}
