/** Section 3 of RFC 3629: the octets of a text, defined by division, and that validity
    of octets is exactly being the octets of some text. */
module Utf8 {
  import opened Octets
  import opened Cbor

  /** A Unicode scalar value: any code point but the surrogates. */
  predicate IsScalar(c: nat) { c <= 0xD7FF || 0xE000 <= c <= 0x10FFFF }

  /** The octets of one character: as few as its value needs, six bits in each after
      the first. */
  function Encode(c: nat): Bytes
    requires IsScalar(c)
  {
    if c < 0x80 then [c]
    else if c < 0x800 then [0xC0 + c / 64, 0x80 + c % 64]
    else if c < 0x1_0000 then [0xE0 + c / 64 / 64, 0x80 + c / 64 % 64, 0x80 + c % 64]
    else [0xF0 + c / 64 / 64 / 64, 0x80 + c / 64 / 64 % 64, 0x80 + c / 64 % 64, 0x80 + c % 64]
  }

  predicate IsText(text: seq<nat>) { forall c | c in text :: IsScalar(c) }

  function EncodeAll(text: seq<nat>): Bytes
    requires IsText(text)
  {
    if text == [] then [] else Encode(text[0]) + EncodeAll(text[1..])
  }

  ghost predicate IsEncodingOf(b: Bytes, text: seq<nat>) {
    IsText(text) && b == EncodeAll(text)
  }

  /** A character's octets are one well-formed sequence, whatever follows. */
  lemma EncodedLength(c: nat, rest: Bytes)
    requires IsScalar(c)
    ensures Encode(c) != [] && Utf8Length(Encode(c) + rest) == |Encode(c)|
  {}

  function Low(b: Byte): int { b as int - 0x80 }

  /** The character at the front. */
  function DecodeFirst(b: Bytes): (c: nat)
    requires b != [] && Utf8Length(b) > 0
  {
    var n, first := Utf8Length(b), b[0] as int;
    if n == 1 then first
    else if n == 2 then (first - 0xC0) * 64 + Low(b[1])
    else if n == 3 then ((first - 0xE0) * 64 + Low(b[1])) * 64 + Low(b[2])
    else (((first - 0xF0) * 64 + Low(b[1])) * 64 + Low(b[2])) * 64 + Low(b[3])
  }

  lemma SixBits(q: nat, r: nat)
    requires r < 64
    ensures (q * 64 + r) / 64 == q && (q * 64 + r) % 64 == r
  {}

  lemma DecodedFirst(b: Bytes)
    requires b != [] && Utf8Length(b) > 0
    ensures IsScalar(DecodeFirst(b)) && Encode(DecodeFirst(b)) == b[..Utf8Length(b)]
  {
    var n := Utf8Length(b);
    if n == 2 { DecodedTwo(b); } else if n == 3 { DecodedThree(b); } else if n == 4 { DecodedFour(b); }
  }

  lemma DecodedTwo(b: Bytes)
    requires b != [] && Utf8Length(b) == 2
    ensures IsScalar(DecodeFirst(b)) && Encode(DecodeFirst(b)) == b[..2]
  {
    SixBits(b[0] as int - 0xC0, Low(b[1]));
  }

  lemma DecodedThree(b: Bytes)
    requires b != [] && Utf8Length(b) == 3
    ensures IsScalar(DecodeFirst(b)) && Encode(DecodeFirst(b)) == b[..3]
  {
    var q := (b[0] as int - 0xE0) * 64 + Low(b[1]);
    SixBits(b[0] as int - 0xE0, Low(b[1]));
    SixBits(q, Low(b[2]));
    assert DecodeFirst(b) == q * 64 + Low(b[2]);
    assert 0x800 <= q * 64 + Low(b[2]) < 0x1_0000;
  }

  lemma DecodedFour(b: Bytes)
    requires b != [] && Utf8Length(b) == 4
    ensures IsScalar(DecodeFirst(b)) && Encode(DecodeFirst(b)) == b[..4]
  {
    var p := (b[0] as int - 0xF0) * 64 + Low(b[1]);
    var q := p * 64 + Low(b[2]);
    SixBits(b[0] as int - 0xF0, Low(b[1]));
    SixBits(p, Low(b[2]));
    SixBits(q, Low(b[3]));
    assert DecodeFirst(b) == q * 64 + Low(b[3]);
    assert 0x1_0000 <= q * 64 + Low(b[3]) <= 0x10FFFF;
  }

  lemma {:induction false} DecodeText(b: Bytes) returns (text: seq<nat>)
    requires ValidUtf8(b)
    ensures IsEncodingOf(b, text)
    decreases |b|
  {
    hide Utf8Length, Encode, DecodeFirst;
    if b == [] {
      text := [];
    } else {
      var n := Utf8Length(b);
      var rest := DecodeText(b[n..]);
      DecodedFirst(b);
      text := [DecodeFirst(b)] + rest;
      assert text[1..] == rest && b == b[..n] + b[n..];
    }
  }

  lemma {:induction false} EncodedValid(text: seq<nat>)
    requires IsText(text)
    ensures ValidUtf8(EncodeAll(text))
    decreases |text|
  {
    hide Utf8Length, Encode, IsScalar;
    if text != [] {
      var first, rest := Encode(text[0]), EncodeAll(text[1..]);
      EncodedValid(text[1..]);
      EncodedLength(text[0], rest);
      assert (first + rest)[|first|..] == rest;
    }
  }

  /** Octets are valid if and only if they are the octets of some text. */
  lemma ValidIffEncoded(b: Bytes)
    ensures ValidUtf8(b) <==> exists text :: IsEncodingOf(b, text)
  {
    hide ValidUtf8;
    if ValidUtf8(b) { var text := DecodeText(b); }
    forall text | IsEncodingOf(b, text) ensures ValidUtf8(b) { EncodedValid(text); }
  }

  /** And of one text only. */
  lemma {:induction false} EncodingInjective(s: seq<nat>, t: seq<nat>)
    requires IsText(s) && IsText(t) && EncodeAll(s) == EncodeAll(t)
    ensures s == t
    decreases |s|
  {
    hide Utf8Length, IsScalar;
    if s == [] || t == [] {
      if s != [] { EncodedLength(s[0], []); }
      if t != [] { EncodedLength(t[0], []); }
    } else {
      EncodedLength(s[0], EncodeAll(s[1..]));
      EncodedLength(t[0], EncodeAll(t[1..]));
      hide Encode;
      SplitAt(Encode(s[0]), EncodeAll(s[1..]), Encode(t[0]), EncodeAll(t[1..]));
      EncodeInjective(s[0], t[0]);
      EncodingInjective(s[1..], t[1..]);
      assert s == [s[0]] + s[1..] && t == [t[0]] + t[1..];
    }
  }

  lemma EncodeInjective(c: nat, d: nat)
    requires IsScalar(c) && IsScalar(d) && Encode(c) == Encode(d)
    ensures c == d
  {
    hide IsScalar;
    assert |Encode(c)| == |Encode(d)|;
  }
}
