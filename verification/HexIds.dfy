/** Hexadecimal ids and keys: `hex_encode`, `parse_user_id`, `parse_hex_32`. */
module HexIds {
  import opened Bytes
  import opened Utf8

  const PLUS: byte := '+' as int
  const DASH: byte := '-' as int

  function HexDigit(d: nat): byte
    requires d < 16
  {
    if d < 10 then '0' as int + d else 'a' as int + d - 10
  }

  /** `{:02x}` of every byte. */
  function HexEncode(data: seq<byte>): seq<byte> {
    if data == [] then [] else [HexDigit(data[0] / 16), HexDigit(data[0] % 16)] + HexEncode(data[1..])
  }

  function Nibble(c: byte): Option<nat> {
    if '0' as int <= c <= '9' as int then Some(c - '0' as int)
    else if 'a' as int <= c <= 'f' as int then Some(c - 'a' as int + 10)
    else if 'A' as int <= c <= 'F' as int then Some(c - 'A' as int + 10)
    else None
  }

  /** `u8::from_str_radix(_, 16)` on two characters; a leading plus sign is allowed. */
  function PairValue(hi: byte, lo: byte): (r: Option<byte>) {
    if hi == PLUS then
      match Nibble(lo) case None => None case Some(l) => Some(l)
    else
      match (Nibble(hi), Nibble(lo))
      case (Some(h), Some(l)) => Some(h * 16 + l)
      case _ => None
  }

  function RemoveDashes(s: seq<byte>): seq<byte> {
    if s == [] then []
    else if s[0] == DASH then RemoveDashes(s[1..])
    else [s[0]] + RemoveDashes(s[1..])
  }

  /** `u` spells `id`, two characters a byte. */
  predicate Spells(u: seq<byte>, id: seq<byte>) {
    |u| == 2 * |id| && forall i :: 0 <= i < |id| ==> PairValue(u[2 * i], u[2 * i + 1]) == Some(id[i])
  }

  /** Slicing a string is allowed at the boundaries of its characters only. */
  predicate Boundary(s: seq<byte>, i: nat)
    requires i <= |s|
  {
    i == |s| || !Continuation(s[i])
  }

  /** `&hex[2 * i..2 * i + 2]` is a slice the string allows. */
  predicate Sliceable(u: seq<byte>, i: nat)
    requires 2 * i + 2 <= |u|
  {
    Boundary(u, 2 * i) && Boundary(u, 2 * i + 2)
  }

  /** The first `p` pairs can be sliced off and hold bytes. */
  predicate ParsesUpTo(u: seq<byte>, p: nat)
    requires 2 * p <= |u|
  {
    forall i :: 0 <= i < p ==> Sliceable(u, i) && PairValue(u[2 * i], u[2 * i + 1]).Some?
  }

  datatype HexOutcome =
    | Parsed(id: seq<byte>)
    | WrongLength(len: nat)
    | InvalidHex(position: nat)
    | SlicePanic(position: nat)

  /** `parse_user_id` with `n == 16`, `parse_hex_32` with `n == 32`. */
  method ParseHex(text: Text, n: nat) returns (r: HexOutcome)
    ensures forall id :: r == Parsed(id) <==> |id| == n && Spells(RemoveDashes(text), id)
    ensures forall len: nat :: r == WrongLength(len) <==> len == |RemoveDashes(text)| != 2 * n
    ensures forall p: nat :: r == InvalidHex(p) <==>
              var u := RemoveDashes(text);
              |u| == 2 * n && p < n && ParsesUpTo(u, p) && Sliceable(u, p) && PairValue(u[2 * p], u[2 * p + 1]).None?
    ensures forall p: nat :: r == SlicePanic(p) <==>
              var u := RemoveDashes(text);
              |u| == 2 * n && p < n && ParsesUpTo(u, p) && !Sliceable(u, p)
  {
    var u := RemoveDashes(text);
    if |u| != 2 * n {
      return WrongLength(|u|);
    }
    var out := new byte[n](_ => 0);
    for i := 0 to n
      invariant ParsesUpTo(u, i)
      invariant forall k :: 0 <= k < i ==> PairValue(u[2 * k], u[2 * k + 1]) == Some(out[k])
    {
      if !Sliceable(u, i) {
        SpellingIsSliceable(u, i);
        FirstFailure(u, i);
        return SlicePanic(i);
      }
      var v := PairValue(u[2 * i], u[2 * i + 1]);
      if v.None? {
        FirstFailure(u, i);
        return InvalidHex(i);
      }
      out[i] := v.value;
    }
    assert Spells(u, out[..]);
    SpellsIsFunctional(u, out[..]);
    return Parsed(out[..]);
  }

  lemma FirstFailure(u: seq<byte>, p: nat)
    requires 2 * p + 2 <= |u| && ParsesUpTo(u, p)
    requires !Sliceable(u, p) || PairValue(u[2 * p], u[2 * p + 1]).None?
    ensures forall q: nat :: q != p && 2 * q + 2 <= |u| && ParsesUpTo(u, q) ==>
              Sliceable(u, q) && PairValue(u[2 * q], u[2 * q + 1]).Some?
  {}

  /** "aéaa...": a letter of two bytes across a pair's end, so this configured id stops the client with a panic. */
  lemma SlicePanicHappens()
    ensures var text := [97, 0xC3, 0xA9] + seq(29, _ => 97);
            var u := RemoveDashes(text);
            ValidUtf8(text) && |u| == 32 && ParsesUpTo(u, 0) && !Sliceable(u, 0)
  {
    var tail: seq<byte> := seq(29, _ => 97);
    var text: seq<byte> := [97, 0xC3, 0xA9] + tail;
    AsciiIsValid(tail);
    assert text[1..] == [0xC3, 0xA9] + tail && text[1..][2..] == tail;
    NoDashesToRemove(text);
  }

  lemma SpellingIsSliceable(u: seq<byte>, p: nat)
    requires 2 * p + 2 <= |u|
    ensures forall id :: Spells(u, id) ==> Boundary(u, 2 * p) && Boundary(u, 2 * p + 2)
  {
    forall id | Spells(u, id)
      ensures Boundary(u, 2 * p) && Boundary(u, 2 * p + 2)
    {
      assert PairValue(u[2 * p], u[2 * p + 1]) == Some(id[p]);
      if p + 1 < |id| {
        assert PairValue(u[2 * (p + 1)], u[2 * (p + 1) + 1]) == Some(id[p + 1]);
      }
    }
  }

  lemma SpellsIsFunctional(u: seq<byte>, id: seq<byte>)
    requires Spells(u, id)
    ensures forall other :: Spells(u, other) ==> other == id
  {}

  // ---- Encoding and parsing are inverse, up to signs ----------------------

  lemma DigitsSpell(b: byte)
    ensures var hi, lo := HexDigit(b / 16), HexDigit(b % 16);
            && PairValue(hi, lo) == Some(b)
            && hi < 0x80 && lo < 0x80 && hi !in {DASH, PLUS} && lo !in {DASH, PLUS}
  {}

  lemma {:induction false} HexEncodeSpells(id: seq<byte>)
    ensures Spells(HexEncode(id), id)
    ensures DASH !in HexEncode(id) && PLUS !in HexEncode(id)
    ensures Ascii(HexEncode(id))
  {
    if id != [] {
      hide PairValue, HexDigit;
      DigitsSpell(id[0]);
      HexEncodeSpells(id[1..]);
      SpellsOneMore(HexDigit(id[0] / 16), HexDigit(id[0] % 16), HexEncode(id[1..]), id);
    }
  }

  lemma SpellsOneMore(hi: byte, lo: byte, rest: seq<byte>, id: seq<byte>)
    requires id != [] && PairValue(hi, lo) == Some(id[0]) && Spells(rest, id[1..])
    ensures Spells([hi, lo] + rest, id)
  {
    hide PairValue;
    var u := [hi, lo] + rest;
    forall i | 0 <= i < |id|
      ensures PairValue(u[2 * i], u[2 * i + 1]) == Some(id[i])
    {
      if i > 0 {
        assert u[2 * i] == rest[2 * (i - 1)] && u[2 * i + 1] == rest[2 * (i - 1) + 1];
        assert PairValue(rest[2 * (i - 1)], rest[2 * (i - 1) + 1]) == Some(id[1..][i - 1]);
      }
    }
  }

  lemma {:induction false} NoDashesToRemove(s: seq<byte>)
    requires DASH !in s
    ensures RemoveDashes(s) == s
  {
    if s != [] {
      assert DASH !in s[1..];
      NoDashesToRemove(s[1..]);
    }
  }

  /** Every id is recovered from its hexadecimal form, and from nothing of another id. */
  lemma ParseInvertsEncode(id: seq<byte>, other: seq<byte>)
    ensures ValidUtf8(HexEncode(id))
    ensures Spells(RemoveDashes(HexEncode(id)), other) <==> other == id
  {
    HexEncodeSpells(id);
    AsciiIsValid(HexEncode(id));
    NoDashesToRemove(HexEncode(id));
    SpellsIsFunctional(HexEncode(id), id);
  }

  function LowerByte(c: byte): byte { if 'A' as int <= c <= 'Z' as int then c + 32 else c }

  function Lower(s: seq<byte>): (r: seq<byte>)
    ensures |r| == |s| && forall i :: 0 <= i < |s| ==> r[i] == LowerByte(s[i])
  {
    seq(|s|, i requires 0 <= i < |s| => LowerByte(s[i]))
  }

  lemma HexEncodeAt(id: seq<byte>, i: nat)
    requires i < |id|
    ensures |HexEncode(id)| == 2 * |id|
    ensures HexEncode(id)[2 * i] == HexDigit(id[i] / 16) && HexEncode(id)[2 * i + 1] == HexDigit(id[i] % 16)
  {
    if i > 0 {
      HexEncodeAt(id[1..], i - 1);
    } else {
      HexEncodeSpells(id);
    }
  }

  /** One spelling of an id for all: in lower case, with a zero for a plus sign. */
  function Canonical(u: seq<byte>): (r: seq<byte>)
    ensures |r| == |u| && forall i :: 0 <= i < |u| ==> r[i] == if u[i] == PLUS then '0' as int else LowerByte(u[i])
  {
    seq(|u|, i requires 0 <= i < |u| => if u[i] == PLUS then '0' as int else LowerByte(u[i]))
  }

  lemma PairReencodes(hi: byte, lo: byte)
    requires PairValue(hi, lo).Some?
    ensures var v := PairValue(hi, lo).value;
            [HexDigit(v / 16), HexDigit(v % 16)] == Canonical([hi, lo]) && lo != PLUS
  {
    var h, l := if hi == PLUS then 0 else Nibble(hi).value, Nibble(lo).value;
    assert (h * 16 + l) / 16 == h && (h * 16 + l) % 16 == l;
  }

  lemma PairReencodedAt(u: seq<byte>, id: seq<byte>, i: nat)
    requires Spells(u, id) && i < |id|
    ensures |HexEncode(id)| == |u|
    ensures HexEncode(id)[2 * i] == Canonical(u)[2 * i] && HexEncode(id)[2 * i + 1] == Canonical(u)[2 * i + 1]
  {
    HexEncodeAt(id, i);
    assert PairValue(u[2 * i], u[2 * i + 1]) == Some(id[i]);
    PairReencodes(u[2 * i], u[2 * i + 1]);
    assert [u[2 * i], u[2 * i + 1]][1] == u[2 * i + 1];
  }

  /** Whatever spelling was parsed, the id re-encodes to the canonical one; that is the spelling's own lower case exactly when it holds no plus sign. */
  lemma ReencodeIsCanonical(u: seq<byte>, id: seq<byte>)
    requires Spells(u, id)
    ensures HexEncode(id) == Canonical(u)
    ensures HexEncode(id) == Lower(u) <==> PLUS !in u
  {
    if id == [] {
      assert HexEncode(id) == Canonical(u);
    } else {
      PairReencodedAt(u, id, 0);
    }
    forall j | 0 <= j < |u|
      ensures HexEncode(id)[j] == Canonical(u)[j]
    {
      PairReencodedAt(u, id, j / 2);
      assert j == 2 * (j / 2) || j == 2 * (j / 2) + 1;
    }
    assert HexEncode(id) == Canonical(u);
    if PLUS in u {
      var j :| 0 <= j < |u| && u[j] == PLUS;
      assert Lower(u)[j] != Canonical(u)[j];
    } else {
      assert Lower(u) == Canonical(u);
    }
  }

  // ---- Digits and dashes, spelled out ----------------------------------------

  const LOWER_DIGITS := "0123456789abcdef"
  const UPPER_DIGITS := "0123456789ABCDEF"

  /** Each byte is written as its high and its low digit, in lower case. */
  lemma HexLayout(id: seq<byte>, i: nat)
    requires i < |id|
    ensures |HexEncode(id)| == 2 * |id|
    ensures HexEncode(id)[2 * i] == LOWER_DIGITS[id[i] / 16] as int
    ensures HexEncode(id)[2 * i + 1] == LOWER_DIGITS[id[i] % 16] as int
  {
    HexEncodeAt(id, i);
    DigitSpelled(id[i] / 16);
    DigitSpelled(id[i] % 16);
  }

  lemma DigitSpelled(d: nat)
    requires d < 16
    ensures HexDigit(d) == LOWER_DIGITS[d] as int
  {}

  /** `c` is the digit `d`, in either case. */
  predicate IsDigit(c: byte, d: nat) { d < 16 && (c == LOWER_DIGITS[d] as int || c == UPPER_DIGITS[d] as int) }

  lemma NibbleExact(c: byte, d: nat)
    ensures Nibble(c) == Some(d) <==> IsDigit(c, d)
  {}

  /** A pair is read as two digits, or as a plus sign and one. */
  lemma PairExact(hi: byte, lo: byte, v: byte)
    ensures PairValue(hi, lo) == Some(v) <==>
            if hi == '+' as int then IsDigit(lo, v) else IsDigit(hi, v / 16) && IsDigit(lo, v % 16)
  {
    hide Nibble, IsDigit;
    NibbleExact(hi, v / 16);
    NibbleExact(lo, v % 16);
    NibbleExact(lo, v);
    if v >= 16 {
      NotADigit(lo, v);
    }
    if Nibble(hi).Some? && Nibble(lo).Some? {
      NibbleSmall(hi);
      NibbleSmall(lo);
    }
  }

  lemma NibbleSmall(c: byte)
    ensures Nibble(c).Some? ==> Nibble(c).value < 16
  {}

  lemma NotADigit(c: byte, v: nat)
    requires v >= 16
    ensures !IsDigit(c, v)
  {}

  /** `replace('-', "")`: the dashes go, and nothing else. */
  lemma {:induction false} DashesRemoved(s: seq<byte>, t: seq<byte>, c: byte)
    ensures RemoveDashes(s + t) == RemoveDashes(s) + RemoveDashes(t)
    ensures RemoveDashes([c]) == if c == '-' as int then [] else [c]
  {
    assert [c][1..] == [];
    if s == [] {
      assert s + t == t;
    } else {
      assert (s + t)[1..] == s[1..] + t;
      DashesRemoved(s[1..], t, c);
    }
  }
}
