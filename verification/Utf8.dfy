/** Well-formed UTF-8, the invariant of a Rust `String` (RFC 3629, section 4). */
module Utf8 {
  import opened Bytes

  predicate Continuation(b: byte) { 0x80 <= b < 0xC0 }

  /** Length of the well-formed character that opens `s`, or 0 when none does. */
  function CharLen(s: seq<byte>): (n: nat)
    ensures n <= |s|
  {
    if |s| == 0 then 0
    else if s[0] < 0x80 then 1
    else if 0xC2 <= s[0] < 0xE0 then
      if |s| >= 2 && Continuation(s[1]) then 2 else 0
    else if 0xE0 <= s[0] < 0xF0 then
      if |s| >= 3 && SecondOf3(s[0], s[1]) && Continuation(s[2]) then 3 else 0
    else if 0xF0 <= s[0] < 0xF5 then
      if |s| >= 4 && SecondOf4(s[0], s[1]) && Continuation(s[2]) && Continuation(s[3]) then 4 else 0
    else 0
  }

  /** No over-long forms and no surrogates among the three-byte characters. */
  predicate SecondOf3(lead: byte, b: byte) {
    if lead == 0xE0 then 0xA0 <= b < 0xC0
    else if lead == 0xED then 0x80 <= b < 0xA0
    else Continuation(b)
  }

  /** No over-long forms and nothing above U+10FFFF among the four-byte characters. */
  predicate SecondOf4(lead: byte, b: byte) {
    if lead == 0xF0 then 0x90 <= b < 0xC0
    else if lead == 0xF4 then 0x80 <= b < 0x90
    else Continuation(b)
  }

  predicate ValidUtf8(s: seq<byte>)
    decreases |s|
  {
    s == [] || (CharLen(s) > 0 && ValidUtf8(s[CharLen(s)..]))
  }

  /** A Rust string, as its bytes. */
  type Text = s: seq<byte> | ValidUtf8(s) witness []

  predicate Ascii(s: seq<byte>) { forall i :: 0 <= i < |s| ==> s[i] < 0x80 }

  lemma {:induction false} AsciiIsValid(s: seq<byte>)
    requires Ascii(s)
    ensures ValidUtf8(s)
  {
    if s != [] {
      AsciiIsValid(s[1..]);
    }
  }

  function CodePoint(s: seq<byte>): nat
    requires CharLen(s) > 0
  {
    var a: nat := s[0];
    match CharLen(s)
    case 1 => a
    case 2 => (a - 0xC0) * 0x40 + (s[1] - 0x80)
    case 3 => var b: nat, c: nat := s[1] - 0x80, s[2] - 0x80; ((a - 0xE0) * 0x40 + b) * 0x40 + c
    case _ =>
      var b: nat, c: nat, d: nat := s[1] - 0x80, s[2] - 0x80, s[3] - 0x80;
      (((a - 0xF0) * 0x40 + b) * 0x40 + c) * 0x40 + d
  }

  // ---- The encoding of section 3 of RFC 3629 --------------------------------

  /** A Unicode scalar value. */
  predicate Scalar(c: nat) { c < 0xD800 || 0xE000 <= c < 0x11_0000 }

  predicate AllScalar(chars: seq<nat>) { forall i :: 0 <= i < |chars| ==> Scalar(chars[i]) }

  function EncodeChar(c: nat): (s: seq<byte>)
    requires Scalar(c)
    ensures s != []
  {
    if c < 0x80 then [c]
    else if c < 0x800 then [0xC0 + c / 0x40, 0x80 + c % 0x40]
    else if c < 0x1_0000 then [0xE0 + c / 0x1000, 0x80 + c / 0x40 % 0x40, 0x80 + c % 0x40]
    else [0xF0 + c / 0x4_0000, 0x80 + c / 0x1000 % 0x40, 0x80 + c / 0x40 % 0x40, 0x80 + c % 0x40]
  }

  function EncodeText(chars: seq<nat>): seq<byte>
    requires AllScalar(chars)
  {
    if chars == [] then [] else EncodeChar(chars[0]) + EncodeText(chars[1..])
  }

  /** An encoded character is read back, and nothing past it. */
  lemma EncodedCharRead(c: nat, rest: seq<byte>)
    requires Scalar(c)
    ensures var s := EncodeChar(c) + rest; CharLen(s) == |EncodeChar(c)| && CodePoint(s) == c
  {
    Sextets(c);
  }

  lemma Sextets(c: nat)
    ensures c == 0x40 * (c / 0x40) + c % 0x40
    ensures c / 0x40 == 0x40 * (c / 0x1000) + c / 0x40 % 0x40
    ensures c / 0x1000 == 0x40 * (c / 0x4_0000) + c / 0x1000 % 0x40
  {
    assert c / 0x1000 == c / 0x40 / 0x40 && c / 0x4_0000 == c / 0x1000 / 0x40;
  }

  lemma Digit(q: nat, r: nat)
    requires r < 0x40
    ensures (q * 0x40 + r) / 0x40 == q && (q * 0x40 + r) % 0x40 == r
  {}

  lemma Quotients(c: nat)
    ensures c / 0x1000 == c / 0x40 / 0x40 && c / 0x4_0000 == c / 0x1000 / 0x40
  {}

  lemma TwoDecodes(s: seq<byte>)
    requires CharLen(s) == 2
    ensures Scalar(CodePoint(s)) && EncodeChar(CodePoint(s)) == [s[0], s[1]]
  {
    Digit(s[0] - 0xC0, s[1] - 0x80);
  }

  lemma ThreeDecodes(s: seq<byte>)
    requires CharLen(s) == 3
    ensures Scalar(CodePoint(s)) && EncodeChar(CodePoint(s)) == [s[0], s[1], s[2]]
  {
    var a: nat, b: nat, c: nat := s[0] - 0xE0, s[1] - 0x80, s[2] - 0x80;
    var q := a * 0x40 + b;
    Digit(a, b);
    Digit(q, c);
    Quotients(q * 0x40 + c);
    assert CodePoint(s) == q * 0x40 + c;
  }

  lemma FourDecodes(s: seq<byte>)
    requires CharLen(s) == 4
    ensures Scalar(CodePoint(s)) && EncodeChar(CodePoint(s)) == [s[0], s[1], s[2], s[3]]
  {
    var a: nat, b: nat, c: nat, d: nat := s[0] - 0xF0, s[1] - 0x80, s[2] - 0x80, s[3] - 0x80;
    var q := a * 0x40 + b;
    var r := q * 0x40 + c;
    Digit(a, b);
    Digit(q, c);
    Digit(r, d);
    Quotients(r * 0x40 + d);
    assert CodePoint(s) == r * 0x40 + d;
  }

  /** What is read as a character is that character's encoding. */
  lemma CharDecodes(s: seq<byte>)
    requires CharLen(s) > 0
    ensures Scalar(CodePoint(s)) && EncodeChar(CodePoint(s)) == s[..CharLen(s)]
  {
    if CharLen(s) == 2 {
      TwoDecodes(s);
    } else if CharLen(s) == 3 {
      ThreeDecodes(s);
    } else if CharLen(s) == 4 {
      FourDecodes(s);
    }
    hide EncodeChar, Scalar;
    assert CharLen(s) == 1 ==> CodePoint(s) == s[0];
  }

  /** The bytes of a string are exactly the encodings of sequences of scalar values. */
  lemma ValidIsEncoded(s: seq<byte>)
    ensures ValidUtf8(s) <==> exists chars :: AllScalar(chars) && s == EncodeText(chars)
  {
    if ValidUtf8(s) {
      var chars := Decoded(s);
    }
    if chars :| AllScalar(chars) && s == EncodeText(chars) {
      EncodedIsValid(chars);
    }
  }

  lemma {:induction false} Decoded(s: seq<byte>) returns (chars: seq<nat>)
    requires ValidUtf8(s)
    ensures AllScalar(chars) && s == EncodeText(chars)
    decreases |s|
  {
    hide EncodeChar, CodePoint, CharLen;
    if s == [] {
      chars := [];
    } else {
      CharDecodes(s);
      var more := Decoded(s[CharLen(s)..]);
      chars := [CodePoint(s)] + more;
      assert chars[1..] == more;
      assert s == s[..CharLen(s)] + s[CharLen(s)..];
    }
  }

  lemma {:induction false} EncodedIsValid(chars: seq<nat>)
    requires AllScalar(chars)
    ensures ValidUtf8(EncodeText(chars))
  {
    hide EncodeChar, CodePoint, CharLen;
    if chars != [] {
      var first, rest := EncodeChar(chars[0]), EncodeText(chars[1..]);
      EncodedCharRead(chars[0], rest);
      assert (first + rest)[|first|..] == rest;
      EncodedIsValid(chars[1..]);
    }
  }
}
