/** Byte encodings the core relies on: base64 as section 4 of RFC 4648
    defines it (`new Buffer(s, 'base64')` on well-formed input), lower-case
    hexadecimal (`buf.toString('hex')`), and reading bytes as text. */
module Encoding {
  import opened Common

  type Byte = x: int | 0 <= x < 256
  type Sextet = x: int | 0 <= x < 64

  const Pad := '='

  // ---------------------------------------------------------------------------
  // The base64 alphabet (table 1 of section 4 of RFC 4648)

  /** The character that encodes the 6-bit value `v`. */
  function Base64Char(v: Sextet): char {
    if v < 26 then ('A' as int + v) as char
    else if v < 52 then ('a' as int + (v - 26)) as char
    else if v < 62 then ('0' as int + (v - 52)) as char
    else if v == 62 then '+'
    else '/'
  }

  predicate IsBase64Char(c: char) {
    ('A' <= c <= 'Z') || ('a' <= c <= 'z') || ('0' <= c <= '9') || c == '+' || c == '/'
  }

  /** The 6-bit value a character of the alphabet stands for. */
  function Base64Value(c: char): (v: Sextet)
    requires IsBase64Char(c)
    ensures Base64Char(v) == c
  {
    if 'A' <= c <= 'Z' then c as int - 'A' as int
    else if 'a' <= c <= 'z' then c as int - 'a' as int + 26
    else if '0' <= c <= '9' then c as int - '0' as int + 52
    else if c == '+' then 62
    else 63
  }

  /** Every value has a character, and reading the character back gives the
      value: the alphabet is a bijection between 0..63 and its 64 characters. */
  lemma Base64CharValue(v: Sextet)
    ensures IsBase64Char(Base64Char(v)) && Base64Value(Base64Char(v)) == v
  {
  }

  // ---------------------------------------------------------------------------
  // Encoding

  /** A group of the encoding: four characters of the alphabet or padding. */
  predicate IsGroup(g: string) {
    |g| == 4 && forall i :: 0 <= i < 4 ==> IsBase64Char(g[i]) || g[i] == Pad
  }

  /** Three bytes (24 bits) as four characters, most significant bits first. */
  function EncodeQuantum(b0: Byte, b1: Byte, b2: Byte): (g: string)
    ensures IsGroup(g)
  {
    Base64CharValue(b0 / 4);
    Base64CharValue((b0 % 4) * 16 + b1 / 16);
    Base64CharValue((b1 % 16) * 4 + b2 / 64);
    Base64CharValue(b2 % 64);
    [Base64Char(b0 / 4), Base64Char((b0 % 4) * 16 + b1 / 16),
     Base64Char((b1 % 16) * 4 + b2 / 64), Base64Char(b2 % 64)]
  }

  /** A final group of one byte: its 8 bits padded with zero bits to two
      characters, then two pad characters. */
  function EncodeFinalOne(b0: Byte): (g: string)
    ensures IsGroup(g)
  {
    Base64CharValue(b0 / 4);
    Base64CharValue((b0 % 4) * 16);
    [Base64Char(b0 / 4), Base64Char((b0 % 4) * 16), Pad, Pad]
  }

  /** A final group of two bytes: their 16 bits padded with zero bits to
      three characters, then one pad character. */
  function EncodeFinalTwo(b0: Byte, b1: Byte): (g: string)
    ensures IsGroup(g)
  {
    Base64CharValue(b0 / 4);
    Base64CharValue((b0 % 4) * 16 + b1 / 16);
    Base64CharValue((b1 % 16) * 4);
    [Base64Char(b0 / 4), Base64Char((b0 % 4) * 16 + b1 / 16), Base64Char((b1 % 16) * 4), Pad]
  }

  /** Base64 encoding with padding: full 24-bit groups, then a final group of
      one byte ("xx==") or two bytes ("xxx="). */
  function Encode(bs: seq<Byte>): (s: string)
    ensures |s| == 4 * ((|bs| + 2) / 3)
    ensures forall i :: 0 <= i < |s| ==> IsBase64Char(s[i]) || s[i] == Pad
    decreases |bs|
  {
    if |bs| == 0 then []
    else if |bs| == 1 then EncodeFinalOne(bs[0])
    else if |bs| == 2 then EncodeFinalTwo(bs[0], bs[1])
    else
      var g, rest := EncodeQuantum(bs[0], bs[1], bs[2]), Encode(bs[3..]);
      assert forall i :: 4 <= i < |g + rest| ==> (g + rest)[i] == rest[i - 4];
      g + rest
  }

  // ---------------------------------------------------------------------------
  // Decoding of well-formed input

  /** Four alphabet characters as three bytes. */
  function DecodeQuantum(q: string): Option<seq<Byte>>
    requires |q| == 4
  {
    if IsBase64Char(q[0]) && IsBase64Char(q[1]) && IsBase64Char(q[2]) && IsBase64Char(q[3]) then
      var v0, v1, v2, v3 := Base64Value(q[0]), Base64Value(q[1]), Base64Value(q[2]), Base64Value(q[3]);
      Some([v0 * 4 + v1 / 16, (v1 % 16) * 16 + v2 / 4, (v2 % 4) * 64 + v3])
    else None
  }

  /** The last group: a full quantum, or a padded one whose unused bits are
      zero (section 3.5 of RFC 4648: canonical encoding). */
  function DecodeFinal(q: string): Option<seq<Byte>>
    requires |q| == 4
  {
    if q[2] == Pad && q[3] == Pad then
      if IsBase64Char(q[0]) && IsBase64Char(q[1]) && Base64Value(q[1]) % 16 == 0 then
        Some([Base64Value(q[0]) * 4 + Base64Value(q[1]) / 16])
      else None
    else if q[3] == Pad then
      if IsBase64Char(q[0]) && IsBase64Char(q[1]) && IsBase64Char(q[2]) && Base64Value(q[2]) % 4 == 0 then
        var v0, v1, v2 := Base64Value(q[0]), Base64Value(q[1]), Base64Value(q[2]);
        Some([v0 * 4 + v1 / 16, (v1 % 16) * 16 + v2 / 4])
      else None
    else DecodeQuantum(q)
  }

  /** Strict decoding: `None` for anything that is not the canonical
      encoding of some byte string. What it accepts is a whole number of
      four-character groups, three bytes each but for one or two in a padded
      last group. */
  function Decode(s: string): (r: Option<seq<Byte>>)
    ensures r.Some? ==> |s| % 4 == 0 && |s| / 4 * 3 - 2 <= |r.value| <= |s| / 4 * 3
    decreases |s|
  {
    if s == [] then Some([])
    else if |s| < 4 then None
    else if |s| == 4 then DecodeFinal(s)
    else
      match DecodeQuantum(s[..4])
      case None => None
      case Some(head) =>
        match Decode(s[4..])
        case None => None
        case Some(tail) => Some(head + tail)
  }

  /** Regrouping three bytes as four sextets and back loses no bit. */
  lemma RegroupBytes(b0: int, b1: int, b2: int)
    requires 0 <= b0 < 256 && 0 <= b1 < 256 && 0 <= b2 < 256
    ensures 0 <= (b0 % 4) * 16 + b1 / 16 < 64 && 0 <= (b1 % 16) * 4 + b2 / 64 < 64
    ensures (b0 / 4) * 4 + ((b0 % 4) * 16 + b1 / 16) / 16 == b0
    ensures (((b0 % 4) * 16 + b1 / 16) % 16) * 16 + ((b1 % 16) * 4 + b2 / 64) / 4 == b1
    ensures (((b1 % 16) * 4 + b2 / 64) % 4) * 64 + b2 % 64 == b2
  {
  }

  /** Regrouping four sextets as three bytes and back loses no bit. */
  lemma RegroupSextets(v0: int, v1: int, v2: int, v3: int)
    requires 0 <= v0 < 64 && 0 <= v1 < 64 && 0 <= v2 < 64 && 0 <= v3 < 64
    ensures 0 <= v0 * 4 + v1 / 16 < 256 && 0 <= (v1 % 16) * 16 + v2 / 4 < 256 && 0 <= (v2 % 4) * 64 + v3 < 256
    ensures (v0 * 4 + v1 / 16) / 4 == v0
    ensures ((v0 * 4 + v1 / 16) % 4) * 16 + ((v1 % 16) * 16 + v2 / 4) / 16 == v1
    ensures (((v1 % 16) * 16 + v2 / 4) % 16) * 4 + ((v2 % 4) * 64 + v3) / 64 == v2
    ensures ((v2 % 4) * 64 + v3) % 64 == v3
  {
  }

  lemma QuantumRoundTrip(b0: Byte, b1: Byte, b2: Byte)
    ensures DecodeQuantum(EncodeQuantum(b0, b1, b2)) == Some([b0, b1, b2])
  {
    RegroupBytes(b0, b1, b2);
    Base64CharValue(b0 / 4);
    Base64CharValue((b0 % 4) * 16 + b1 / 16);
    Base64CharValue((b1 % 16) * 4 + b2 / 64);
    Base64CharValue(b2 % 64);
  }

  lemma FinalOneRoundTrip(b0: Byte)
    ensures Decode(Encode([b0])) == Some([b0])
  {
    var v0, v1 := b0 / 4, (b0 % 4) * 16;
    Base64CharValue(v0);
    Base64CharValue(v1);
    var q := Encode([b0]);
    assert q == [Base64Char(v0), Base64Char(v1), Pad, Pad];
    assert v0 * 4 + v1 / 16 == b0;
  }

  lemma FinalTwoRoundTrip(b0: Byte, b1: Byte)
    ensures Decode(Encode([b0, b1])) == Some([b0, b1])
  {
    var v0, v1, v2 := b0 / 4, (b0 % 4) * 16 + b1 / 16, (b1 % 16) * 4;
    Base64CharValue(v0);
    Base64CharValue(v1);
    Base64CharValue(v2);
    var q := Encode([b0, b1]);
    assert q == [Base64Char(v0), Base64Char(v1), Base64Char(v2), Pad];
    assert q[2] != Pad;
    assert v0 * 4 + v1 / 16 == b0;
    assert (v1 % 16) * 16 + v2 / 4 == b1;
  }

  /** A full quantum followed by more groups decodes to the quantum's bytes
      followed by the rest's. */
  lemma DecodeCons(q: string, rest: string)
    requires |q| == 4 && |rest| >= 4
    ensures Decode(q + rest) ==
      match DecodeQuantum(q)
      case None => None
      case Some(head) =>
        match Decode(rest)
        case None => None
        case Some(tail) => Some(head + tail)
  {
    assert (q + rest)[..4] == q;
    assert (q + rest)[4..] == rest;
  }

  lemma ConsThree<T>(xs: seq<T>)
    requires |xs| >= 3
    ensures xs == [xs[0], xs[1], xs[2]] + xs[3..]
  {
  }

  lemma EncodeUnfold(bs: seq<Byte>)
    requires |bs| >= 3
    ensures Encode(bs) == EncodeQuantum(bs[0], bs[1], bs[2]) + Encode(bs[3..])
  {
  }

  lemma SingleQuantumRoundTrip(b0: Byte, b1: Byte, b2: Byte)
    ensures Decode(Encode([b0, b1, b2])) == Some([b0, b1, b2])
  {
    var bs := [b0, b1, b2];
    EncodeUnfold(bs);
    assert bs[3..] == [];
    assert Encode(bs) == EncodeQuantum(b0, b1, b2);
    QuantumRoundTrip(b0, b1, b2);
  }

  /** One quantum in front of bytes that round-trip keeps the round trip. */
  lemma QuantumThenRest(bs: seq<Byte>)
    requires |bs| > 3
    requires Decode(Encode(bs[3..])) == Some(bs[3..])
    ensures Decode(Encode(bs)) == Some(bs)
  {
    var q := EncodeQuantum(bs[0], bs[1], bs[2]);
    var rest := Encode(bs[3..]);
    var n := |bs[3..]|;
    assert (n + 2) / 3 >= 1;
    assert |rest| >= 4;
    EncodeUnfold(bs);
    QuantumRoundTrip(bs[0], bs[1], bs[2]);
    DecodeCons(q, rest);
    ConsThree(bs);
  }

  /** Decoding the encoding of any byte string gives back the bytes. */
  lemma {:induction false} DecodeEncode(bs: seq<Byte>)
    ensures Decode(Encode(bs)) == Some(bs)
    decreases |bs|
  {
    if |bs| == 1 {
      FinalOneRoundTrip(bs[0]);
      assert bs == [bs[0]];
    } else if |bs| == 2 {
      FinalTwoRoundTrip(bs[0], bs[1]);
      assert bs == [bs[0], bs[1]];
    } else if |bs| == 3 {
      SingleQuantumRoundTrip(bs[0], bs[1], bs[2]);
      assert bs == [bs[0], bs[1], bs[2]];
    } else if |bs| > 3 {
      DecodeEncode(bs[3..]);
      QuantumThenRest(bs);
    }
  }

  lemma QuantumCanonical(q: string)
    requires |q| == 4 && DecodeQuantum(q).Some?
    ensures |DecodeQuantum(q).value| == 3
    ensures EncodeQuantum(DecodeQuantum(q).value[0], DecodeQuantum(q).value[1], DecodeQuantum(q).value[2]) == q
  {
    var v0: int, v1: int, v2: int, v3: int := Base64Value(q[0]), Base64Value(q[1]), Base64Value(q[2]), Base64Value(q[3]);
    RegroupSextets(v0, v1, v2, v3);
    var b0: int, b1: int, b2: int := v0 * 4 + v1 / 16, (v1 % 16) * 16 + v2 / 4, (v2 % 4) * 64 + v3;
    assert DecodeQuantum(q).value == [b0, b1, b2];
    assert EncodeQuantum(b0, b1, b2) == [Base64Char(v0), Base64Char(v1), Base64Char(v2), Base64Char(v3)];
  }

  /** A group with two pad characters is the encoding of its one byte. */
  lemma FinalOneCanonical(q: string)
    requires |q| == 4 && q[2] == Pad && q[3] == Pad && DecodeFinal(q).Some?
    ensures Encode(DecodeFinal(q).value) == q
  {
    var v0: int, v1: int := Base64Value(q[0]), Base64Value(q[1]);
    RegroupSextets(v0, v1, 0, 0);
    var b0: int := v0 * 4 + v1 / 16;
    assert DecodeFinal(q).value == [b0];
    assert Encode([b0]) == [Base64Char(b0 / 4), Base64Char((b0 % 4) * 16), Pad, Pad];
  }

  /** A group with one pad character is the encoding of its two bytes. */
  lemma FinalTwoCanonical(q: string)
    requires |q| == 4 && q[2] != Pad && q[3] == Pad && DecodeFinal(q).Some?
    ensures Encode(DecodeFinal(q).value) == q
  {
    var v0: int, v1: int, v2: int := Base64Value(q[0]), Base64Value(q[1]), Base64Value(q[2]);
    RegroupSextets(v0, v1, v2, 0);
    var b0: int, b1: int := v0 * 4 + v1 / 16, (v1 % 16) * 16 + v2 / 4;
    assert DecodeFinal(q).value == [b0, b1];
    assert Encode([b0, b1]) == [Base64Char(b0 / 4), Base64Char((b0 % 4) * 16 + b1 / 16), Base64Char((b1 % 16) * 4), Pad];
  }

  lemma FinalCanonical(q: string)
    requires |q| == 4 && DecodeFinal(q).Some?
    ensures Encode(DecodeFinal(q).value) == q
  {
    if q[2] == Pad && q[3] == Pad {
      FinalOneCanonical(q);
    } else if q[3] == Pad {
      FinalTwoCanonical(q);
    } else {
      QuantumCanonical(q);
      var bs := DecodeQuantum(q).value;
      assert Encode(bs) == EncodeQuantum(bs[0], bs[1], bs[2]) + Encode(bs[3..]);
      assert bs[3..] == [];
    }
  }

  /** Whatever text decodes is the encoding of what it decodes to: strict
      decoding accepts exactly the canonical encodings. */
  lemma {:induction false} EncodeDecode(s: string)
    requires Decode(s).Some?
    ensures Encode(Decode(s).value) == s
    decreases |s|
  {
    if |s| == 4 {
      FinalCanonical(s);
    } else if |s| > 4 {
      var head := DecodeQuantum(s[..4]).value;
      var tail := Decode(s[4..]).value;
      QuantumCanonical(s[..4]);
      EncodeDecode(s[4..]);
      var bs := head + tail;
      assert Decode(s).value == bs;
      assert bs[..3] == head && bs[3..] == tail;
      assert Encode(bs) == EncodeQuantum(bs[0], bs[1], bs[2]) + Encode(bs[3..]);
      assert s == s[..4] + s[4..];
    }
  }

  // ---------------------------------------------------------------------------
  // Hexadecimal

  function HexDigit(v: int): char
    requires 0 <= v < 16
  {
    if v < 10 then ('0' as int + v) as char else ('a' as int + (v - 10)) as char
  }

  predicate IsHexDigit(c: char) {
    ('0' <= c <= '9') || ('a' <= c <= 'f')
  }

  function HexValue(c: char): (v: int)
    requires IsHexDigit(c)
    ensures 0 <= v < 16 && HexDigit(v) == c
  {
    if c <= '9' then c as int - '0' as int else c as int - 'a' as int + 10
  }

  /** `buf.toString('hex')`: two lower-case hex digits per byte, high nibble first. */
  function Hex(bs: seq<Byte>): (s: string)
    ensures |s| == 2 * |bs|
    ensures forall i :: 0 <= i < |s| ==> IsHexDigit(s[i])
    decreases |bs|
  {
    if bs == [] then [] else [HexDigit(bs[0] / 16), HexDigit(bs[0] % 16)] + Hex(bs[1..])
  }

  /** Reading pairs of lower-case hex digits back as bytes. */
  function Unhex(s: string): Option<seq<Byte>>
    decreases |s|
  {
    if s == [] then Some([])
    else if |s| < 2 || !IsHexDigit(s[0]) || !IsHexDigit(s[1]) then None
    else
      match Unhex(s[2..])
      case None => None
      case Some(rest) => Some([HexValue(s[0]) * 16 + HexValue(s[1])] + rest)
  }

  /** The hex text determines the bytes: distinct random values give
      distinct find-hashes. */
  lemma {:induction false} UnhexHex(bs: seq<Byte>)
    ensures Unhex(Hex(bs)) == Some(bs)
    decreases |bs|
  {
    if bs != [] {
      var s := Hex(bs);
      UnhexHex(bs[1..]);
      assert s[2..] == Hex(bs[1..]);
      assert HexValue(s[0]) == bs[0] / 16;
      assert HexValue(s[1]) == bs[0] % 16;
      assert [bs[0]] + bs[1..] == bs;
    }
  }

  // ---------------------------------------------------------------------------
  // Bytes and text

  /** Text whose every character fits in seven bits. */
  predicate IsAscii(s: string) {
    forall i :: 0 <= i < |s| ==> s[i] < 128 as char
  }

  /** The bytes of an ASCII text, one per character. */
  function AsciiBytes(s: string): (bs: seq<Byte>)
    requires IsAscii(s)
    ensures |bs| == |s|
  {
    seq(|s|, i requires 0 <= i < |s| => s[i] as int)
  }

  /** `buf.toString()` on bytes below 128: each byte is one character. Bytes
      from 128 up are read as one character each as well (see README). */
  function BytesText(bs: seq<Byte>): (s: string)
    ensures |s| == |bs|
  {
    seq(|bs|, i requires 0 <= i < |bs| => bs[i] as char)
  }

  /** Text to bytes and back is the identity on ASCII text. */
  lemma AsciiRoundTrip(s: string)
    requires IsAscii(s)
    ensures BytesText(AsciiBytes(s)) == s
  {
  }
}
