/** Which byte sequences are text: exactly the UTF-8 encodings of Unicode scalar values. */
module Utf8 {
  import opened Wire
  import opened Values

  /** Code points but for the surrogates. */
  predicate IsScalar(c: nat) { c < 0xD800 || 0xE000 <= c < 0x11_0000 }

  /** Section 3 of RFC 3629: one to four bytes, six bits in each but the first. */
  function EncodeScalar(c: nat): bytes
    requires IsScalar(c)
  {
    if c < 0x80 then [c]
    else if c < 0x800 then [0xC0 + c / 0x40, 0x80 + c % 0x40]
    else if c < 0x1_0000 then [0xE0 + c / 0x1000, 0x80 + c / 0x40 % 0x40, 0x80 + c % 0x40]
    else [0xF0 + c / 0x4_0000, 0x80 + c / 0x1000 % 0x40, 0x80 + c / 0x40 % 0x40, 0x80 + c % 0x40]
  }

  predicate AllScalars(text: seq<nat>)
  {
    forall i :: 0 <= i < |text| ==> IsScalar(text[i])
  }

  function Encode(text: seq<nat>): bytes
    requires AllScalars(text)
  {
    if text == [] then [] else EncodeScalar(text[0]) + Encode(text[1..])
  }

  /** One character more in front is text. */
  lemma CharacterFirst(c: nat, rest: bytes)
    requires IsScalar(c) && ValidUtf8(rest)
    ensures ValidUtf8(EncodeScalar(c) + rest)
  {
    var all, first := EncodeScalar(c) + rest, EncodeScalar(c);
    assert all[|first|..] == rest && forall i :: 0 <= i < |first| ==> all[i] == first[i];
    Leading(c);
    hide EncodeScalar;
    assert Continues(all, 1, |first| - 1);
  }

  /** The first byte tells how many follow, and which second ones there are behind it. */
  lemma Leading(c: nat)
    requires IsScalar(c)
    ensures var s := EncodeScalar(c);
      (forall i :: 1 <= i < |s| ==> 0x80 <= s[i] < 0xC0) &&
      match |s|
      case 1 => s[0] < 0x80
      case 2 => 0xC2 <= s[0] < 0xE0
      case 3 => 0xE0 <= s[0] < 0xF0 && (s[0] == 0xE0 ==> s[1] >= 0xA0) && (s[0] == 0xED ==> s[1] < 0xA0)
      case _ =>
        |s| == 4 && 0xF0 <= s[0] < 0xF5 && (s[0] == 0xF0 ==> s[1] >= 0x90) && (s[0] == 0xF4 ==> s[1] < 0x90)
  {
  }

  lemma {:induction false} EncodedIsValid(text: seq<nat>)
    requires AllScalars(text)
    ensures ValidUtf8(Encode(text))
  {
    if text != [] {
      EncodedIsValid(text[1..]);
      CharacterFirst(text[0], Encode(text[1..]));
    }
  }

  /** The six bits of a byte that continues a character. */
  function Six(b: int): int { b - 0x80 }

  /** The character that text begins with. */
  lemma FirstCharacter(s: bytes) returns (c: nat)
    requires ValidUtf8(s) && s != []
    ensures IsScalar(c) && |EncodeScalar(c)| <= |s| && s == EncodeScalar(c) + s[|EncodeScalar(c)|..]
    ensures ValidUtf8(s[|EncodeScalar(c)|..])
  {
    var lead: int := s[0];
    if lead < 0x80 {
      c := lead;
    } else if lead < 0xE0 {
      c := TwoBytes(s);
    } else if lead < 0xF0 {
      c := ThreeBytes(s);
    } else {
      c := FourBytes(s);
    }
    hide ValidUtf8, EncodeScalar;
    assert s == s[..|EncodeScalar(c)|] + s[|EncodeScalar(c)|..];
  }

  lemma TwoBytes(s: bytes) returns (c: nat)
    requires ValidUtf8(s) && s != [] && 0x80 <= s[0] < 0xE0
    ensures 2 <= |s| && IsScalar(c) && EncodeScalar(c) == s[..2] && ValidUtf8(s[2..])
  {
    c := (s[0] as int - 0xC0) * 0x40 + Six(s[1]);
  }

  lemma ThreeBytes(s: bytes) returns (c: nat)
    requires ValidUtf8(s) && s != [] && 0xE0 <= s[0] < 0xF0
    ensures 3 <= |s| && IsScalar(c) && EncodeScalar(c) == s[..3] && ValidUtf8(s[3..])
  {
    var a, b1, b2 := s[0] as int - 0xE0, Six(s[1]), Six(s[2]);
    c := a * 0x1000 + b1 * 0x40 + b2;
    Digits(a, b1, b2);
    hide ValidUtf8;
    assert EncodeScalar(c) == [0xE0 + a, 0x80 + b1, 0x80 + b2];
  }

  /** Three digits of base 64, and how to get them back. */
  lemma Digits(a: int, b: int, c: int)
    requires 0 <= a && 0 <= b < 0x40 && 0 <= c < 0x40
    ensures var n := a * 0x1000 + b * 0x40 + c; n / 0x1000 == a && n / 0x40 % 0x40 == b && n % 0x40 == c
  {
    var n := a * 0x1000 + b * 0x40 + c;
    assert n / 0x40 == a * 0x40 + b;
  }

  lemma FourBytes(s: bytes) returns (c: nat)
    requires ValidUtf8(s) && s != [] && 0xF0 <= s[0]
    ensures 4 <= |s| && IsScalar(c) && EncodeScalar(c) == s[..4] && ValidUtf8(s[4..])
  {
    var a, b1, b2, b3 := s[0] as int - 0xF0, Six(s[1]), Six(s[2]), Six(s[3]);
    c := a * 0x4_0000 + b1 * 0x1000 + b2 * 0x40 + b3;
    Digits(a * 0x40 + b1, b2, b3);
    hide ValidUtf8;
    assert c / 0x1000 == a * 0x40 + b1 && c / 0x4_0000 == a;
    assert EncodeScalar(c) == [0xF0 + a, 0x80 + b1, 0x80 + b2, 0x80 + b3];
  }

  lemma {:induction false} ValidIsEncoded(s: bytes) returns (text: seq<nat>)
    requires ValidUtf8(s)
    ensures AllScalars(text) && Encode(text) == s
    decreases |s|
  {
    if s == [] {
      text := [];
    } else {
      var c := FirstCharacter(s);
      hide ValidUtf8, EncodeScalar;
      var rest := ValidIsEncoded(s[|EncodeScalar(c)|..]);
      text := [c] + rest;
      assert text[1..] == rest;
    }
  }

  /** The text that decoders accept is exactly what encoding some characters gives. */
  lemma ValidIff(s: bytes)
    ensures ValidUtf8(s) <==> exists text :: AllScalars(text) && Encode(text) == s
  {
    hide ValidUtf8, Encode;
    if ValidUtf8(s) {
      var text := ValidIsEncoded(s);
      assert AllScalars(text) && Encode(text) == s;
    }
    forall text | AllScalars(text) && Encode(text) == s ensures ValidUtf8(s) {
      EncodedIsValid(text);
    }
  }
}
