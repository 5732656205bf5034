/** How the Reality server looks for its token in the first request (ghost-reality/src/reality_server.rs). */
module RealityAuth {
  import opened Bytes
  import opened Utf8
  import opened HexIds

  /** A string as its Unicode scalar values. */
  type Chars = seq<nat>

  const REPLACEMENT := 0xFFFD

  // ---- `String::from_utf8_lossy` ------------------------------------------------

  /** Bytes of an ill-formed sequence that one replacement character stands for. */
  function SubpartLen(s: seq<byte>): (n: nat)
    requires s != []
    ensures 1 <= n <= |s|
  {
    if |s| >= 2 && 0xE0 <= s[0] < 0xF0 && SecondOf3(s[0], s[1]) then 2
    else if |s| >= 2 && 0xF0 <= s[0] < 0xF5 && SecondOf4(s[0], s[1]) then
      if |s| >= 3 && Continuation(s[2]) then 3 else 2
    else 1
  }

  /** The bytes the conversion takes next, and what it makes of them. */
  function Unit(s: seq<byte>): (u: (nat, nat))
    requires s != []
    ensures 1 <= u.0 <= |s|
  {
    if CharLen(s) > 0 then (CharLen(s), CodePoint(s)) else (SubpartLen(s), REPLACEMENT)
  }

  function Lossy(s: seq<byte>): Chars
    decreases |s|
  {
    if s == [] then [] else [Unit(s).1] + Lossy(s[Unit(s).0..])
  }

  /** A well-formed text is converted to its characters. */
  lemma {:induction false} LossyOfText(chars: Chars)
    requires AllScalar(chars)
    ensures Lossy(EncodeText(chars)) == chars
  {
    hide EncodeChar, CodePoint, CharLen, SubpartLen;
    if chars != [] {
      var first, rest := EncodeChar(chars[0]), EncodeText(chars[1..]);
      EncodedCharRead(chars[0], rest);
      assert (first + rest)[|first|..] == rest;
      LossyOfText(chars[1..]);
      assert chars == [chars[0]] + chars[1..];
    }
  }

  /** What begins a character: some well-formed character starts with `x` and goes on. */
  ghost predicate Unfinished(x: seq<byte>) { exists c: nat :: Scalar(c) && x < EncodeChar(c) }

  lemma IllFormedIsReplaced(s: seq<byte>)
    requires s != [] && CharLen(s) == 0
    ensures Lossy(s) == [0xFFFD] + Lossy(s[SubpartLen(s)..])
  {
    hide SubpartLen, CodePoint;
  }

  /** One replacement character stands for the longest start of a character there is, or for one byte. */
  lemma SubpartIsMaximal(s: seq<byte>)
    requires s != [] && CharLen(s) == 0
    ensures var n := SubpartLen(s);
            && (n == 1 || Unfinished(s[..n]))
            && forall k :: n < k <= |s| ==> !Unfinished(s[..k])
  {
    var n := SubpartLen(s);
    if n > 1 {
      StartIsUnfinished(s[..n]);
    }
    forall k | 0 <= k <= |s| && Unfinished(s[..k])
      ensures k <= n
    {
      var c: nat :| Scalar(c) && s[..k] < EncodeChar(c);
      StartIsShort(s, k, c);
    }
  }

  lemma StartIsUnfinished(x: seq<byte>)
    requires (|x| == 2 && 0xE0 <= x[0] < 0xF0 && SecondOf3(x[0], x[1]))
             || (|x| == 2 && 0xF0 <= x[0] < 0xF5 && SecondOf4(x[0], x[1]))
             || (|x| == 3 && 0xF0 <= x[0] < 0xF5 && SecondOf4(x[0], x[1]) && Continuation(x[2]))
    ensures Unfinished(x)
  {
    var y: seq<byte> := if x[0] < 0xF0 then x + [0x80] else if |x| == 2 then x + [0x80, 0x80] else x + [0x80];
    assert CharLen(y) == |y|;
    CharDecodes(y);
    assert y[..|y|] == y;
    assert x < EncodeChar(CodePoint(y)) && Scalar(CodePoint(y));
  }

  lemma StartIsShort(s: seq<byte>, k: nat, c: nat)
    requires s != [] && CharLen(s) == 0 && k <= |s|
    requires Scalar(c) && s[..k] < EncodeChar(c)
    ensures k <= SubpartLen(s)
  {
    var e := EncodeChar(c);
    EncodedCharRead(c, []);
    assert e + [] == e;
    assert forall i :: 0 <= i < k ==> s[i] == s[..k][i] == e[i];
  }

  // ---- The search -----------------------------------------------------------------

  /** "X-Ghost-Auth:" */
  const MARKER: seq<byte> := [88, 45, 71, 104, 111, 115, 116, 45, 65, 117, 116, 104, 58]

  lemma MarkerSpelled()
    ensures MARKER == Latin("X-Ghost-Auth:")
  {}

  predicate StartsWith(s: Chars, t: Chars) { |t| <= |s| && s[..|t|] == t }

  /** `find` */
  function Find(s: Chars, t: Chars): Option<nat> {
    if StartsWith(s, t) then Some(0)
    else if s == [] then None
    else
      match Find(s[1..], t)
      case None => None
      case Some(n) => Some(n + 1)
  }

  lemma FindInRange(s: Chars, t: Chars)
    ensures Find(s, t).Some? ==> Find(s, t).value + |t| <= |s|
  {}

  /** The White_Space property of Unicode. */
  predicate Whitespace(c: nat) {
    9 <= c <= 13 || 0x2000 <= c <= 0x200A
    || c in {0x20, 0x85, 0xA0, 0x1680, 0x2028, 0x2029, 0x202F, 0x205F, 0x3000}
  }

  /** All of them. */
  lemma WhitespaceListed(c: nat)
    ensures Whitespace(c) <==>
            c in {0x09, 0x0A, 0x0B, 0x0C, 0x0D, 0x20, 0x85, 0xA0, 0x1680, 0x2000, 0x2001, 0x2002, 0x2003, 0x2004,
                  0x2005, 0x2006, 0x2007, 0x2008, 0x2009, 0x200A, 0x2028, 0x2029, 0x202F, 0x205F, 0x3000}
  {}

  function TrimStart(s: Chars): Chars {
    if s != [] && Whitespace(s[0]) then TrimStart(s[1..]) else s
  }

  function Word(s: Chars): Chars {
    if s == [] || Whitespace(s[0]) then [] else [s[0]] + Word(s[1..])
  }

  function Utf8Width(c: nat): nat {
    if c < 0x80 then 1 else if c < 0x800 then 2 else if c < 0x1_0000 then 3 else 4
  }

  /** `String::len` */
  function ByteLen(s: Chars): nat { if s == [] then 0 else Utf8Width(s[0]) + ByteLen(s[1..]) }

  type Key = s: seq<byte> | |s| == 32 witness seq(32, _ => 0)

  function CreateAuthToken(key: Key): seq<byte> { HexEncode(key) }

  predicate DetectGhostAuth(data: seq<byte>, key: Key) {
    var text := Lossy(data);
    FindInRange(text, MARKER);
    match Find(text, MARKER)
    case None => false
    case Some(at) =>
      var token := Word(TrimStart(text[at + |MARKER|..]));
      ByteLen(token) == 64 && token == HexEncode(key)
  }

  // ---- ASCII text splits a lossy conversion -----------------------------------------

  lemma UnitBeforeAscii(p: seq<byte>, q: seq<byte>)
    requires p != [] && (q != [] ==> q[0] < 0x80)
    ensures Unit(p + q) == Unit(p)
  {}

  lemma {:induction false} LossySplits(p: seq<byte>, q: seq<byte>)
    requires q != [] ==> q[0] < 0x80
    ensures Lossy(p + q) == Lossy(p) + Lossy(q)
    decreases |p|
  {
    hide Unit;
    if p == [] {
      assert p + q == q;
    } else {
      UnitBeforeAscii(p, q);
      LossySplits(p[Unit(p).0..], q);
      LossyJoins(p, q);
    }
  }

  lemma LossyJoins(p: seq<byte>, q: seq<byte>)
    requires p != [] && Unit(p + q) == Unit(p)
    requires Lossy(p[Unit(p).0..] + q) == Lossy(p[Unit(p).0..]) + Lossy(q)
    ensures Lossy(p + q) == Lossy(p) + Lossy(q)
  {
    hide Unit;
    DropJoin(p, q, Unit(p).0);
  }

  lemma {:induction false} LossyOfAscii(s: seq<byte>)
    requires Ascii(s)
    ensures Lossy(s) == s
  {
    if s != [] {
      LossyOfAscii(s[1..]);
      assert s == [s[0]] + s[1..];
    }
  }

  // ---- The first marker ----------------------------------------------------------------

  lemma {:induction false} FirstMarker(before: Chars, after: Chars)
    requires Find(before, MARKER).None?
    ensures Find(before + (MARKER + after), MARKER) == Some(|before|)
  {
    var s := before + (MARKER + after);
    if before == [] {
      assert s[..|MARKER|] == MARKER;
    } else {
      MarkerHasNoBorder(before, after);
      assert s[1..] == before[1..] + (MARKER + after);
      FirstMarker(before[1..], after);
    }
  }

  /** Only the first letter of the marker is an X, so no occurrence starts earlier and runs into this one. */
  lemma MarkerHasNoBorder(before: Chars, after: Chars)
    requires before != [] && !StartsWith(before, MARKER)
    ensures !StartsWith(before + (MARKER + after), MARKER)
  {
    var s := before + (MARKER + after);
    if |before| >= |MARKER| {
      assert s[..|MARKER|] == before[..|MARKER|];
    } else {
      assert s[|before|] == 88 && s[..|MARKER|][|before|] == 88;
      assert MARKER[|before|] != 88;
    }
  }

  lemma {:induction false} TrimThenWord(spaces: Chars, word: Chars, after: Chars)
    requires forall i :: 0 <= i < |spaces| ==> Whitespace(spaces[i])
    requires word != [] && forall i :: 0 <= i < |word| ==> !Whitespace(word[i])
    requires after == [] || Whitespace(after[0])
    ensures Word(TrimStart(spaces + (word + after))) == word
  {
    hide Whitespace;
    if spaces == [] {
      assert spaces + (word + after) == word + after;
      WordEnds(word, after);
    } else {
      assert (spaces + (word + after))[1..] == spaces[1..] + (word + after);
      TrimThenWord(spaces[1..], word, after);
    }
  }

  lemma {:induction false} WordEnds(word: Chars, after: Chars)
    requires forall i :: 0 <= i < |word| ==> !Whitespace(word[i])
    requires after == [] || Whitespace(after[0])
    ensures Word(word + after) == word
  {
    hide Whitespace;
    if word == [] {
      assert word + after == after;
    } else {
      assert (word + after)[1..] == word[1..] + after;
      WordEnds(word[1..], after);
    }
  }

  lemma {:induction false} ByteLenOfAscii(s: seq<byte>)
    requires Ascii(s)
    ensures ByteLen(s) == |s|
  {
    if s != [] {
      ByteLenOfAscii(s[1..]);
    }
  }

  lemma {:induction false} HexIsPlain(id: seq<byte>)
    ensures |HexEncode(id)| == 2 * |id|
    ensures Ascii(HexEncode(id)) && forall i :: 0 <= i < 2 * |id| ==> !Whitespace(HexEncode(id)[i])
  {
    if id != [] {
      HexIsPlain(id[1..]);
    }
  }

  lemma HexSeparatesKeys(a: seq<byte>, b: seq<byte>)
    ensures HexEncode(a) == HexEncode(b) <==> a == b
  {
    HexEncodeSpells(a);
    HexEncodeSpells(b);
    if HexEncode(a) == HexEncode(b) {
      SpellsIsFunctional(HexEncode(a), a);
    }
  }

  // ---- What is accepted ----------------------------------------------------------------

  predicate AllSpace(s: Chars) { forall i :: 0 <= i < |s| ==> Whitespace(s[i]) }

  predicate NoSpace(s: Chars) { forall i :: 0 <= i < |s| ==> !Whitespace(s[i]) }

  /** A text taken apart at its first marker and the first word behind it. */
  predicate Splits(text: Chars, before: Chars, spaces: Chars, token: Chars, after: Chars) {
    && text == before + (MARKER + (spaces + (token + after)))
    && Find(before, MARKER).None?
    && AllSpace(spaces)
    && token != [] && NoSpace(token)
    && (after == [] || Whitespace(after[0]))
  }

  /** The word after the first marker decides, whatever the request holds, and only the configured key's own token will do. */
  lemma FirstMarkerDecides(data: seq<byte>, before: Chars, spaces: Chars, token: Chars, after: Chars, key: Key)
    requires Splits(Lossy(data), before, spaces, token, after)
    ensures DetectGhostAuth(data, key) <==> token == HexEncode(key)
  {
    hide Whitespace, Find, Lossy, Word, TrimStart, ByteLen, HexEncode, StartsWith;
    HexIsPlain(key);
    ByteLenOfAscii(HexEncode(key));
    var rest := spaces + (token + after);
    FirstMarker(before, rest);
    assert Lossy(data)[|before| + |MARKER|..] == rest;
    TrimThenWord(spaces, token, after);
  }

  lemma {:induction false} FindIsFirst(s: Chars, t: Chars) returns (before: Chars, after: Chars)
    requires Find(s, t).Some? && t != []
    ensures s == before + (t + after) && Find(s, t) == Some(|before|) && Find(before, t).None?
  {
    hide StartsWith;
    if StartsWith(s, t) {
      StartIsSplit(s, t);
      before, after := [], s[|t|..];
    } else {
      var x;
      x, after := FindIsFirst(s[1..], t);
      before := [s[0]] + x;
      assert s == [s[0]] + (x + (t + after));
      NotBefore(s[0], x, t, after);
    }
  }

  lemma StartIsSplit(s: Chars, t: Chars)
    requires StartsWith(s, t) && t != []
    ensures |t| <= |s| && s == [] + (t + s[|t|..]) && Find([], t).None?
  {}

  /** One character further on. */
  lemma NotBefore(c: nat, x: Chars, t: Chars, y: Chars)
    requires !StartsWith([c] + (x + (t + y)), t) && Find(x, t).None?
    ensures [c] + (x + (t + y)) == ([c] + x) + (t + y) && Find([c] + x, t).None?
  {
    var s := [c] + x;
    assert s[1..] == x;
    assert |t| <= |s| ==> (s + (t + y))[..|t|] == s[..|t|];
  }

  lemma {:induction false} TrimmedSpaces(s: Chars) returns (n: nat)
    ensures n <= |s| && AllSpace(s[..n]) && TrimStart(s) == s[n..]
    ensures n < |s| ==> !Whitespace(s[n])
  {
    hide Whitespace;
    if s != [] && Whitespace(s[0]) {
      var m := TrimmedSpaces(s[1..]);
      n := m + 1;
      assert forall i :: 1 <= i < n ==> s[i] == s[1..][..m][i - 1];
    } else {
      n := 0;
    }
  }

  lemma {:induction false} WordIsHead(s: Chars)
    ensures Word(s) <= s && NoSpace(Word(s))
    ensures |Word(s)| < |s| ==> Whitespace(s[|Word(s)|])
    ensures Word(s) == [] ==> s == [] || Whitespace(s[0])
  {
    hide Whitespace;
    if s != [] && !Whitespace(s[0]) {
      WordIsHead(s[1..]);
      assert s == [s[0]] + s[1..];
    }
  }

  /** Accepted are exactly the requests whose first marker is followed by the key's token as a whole word. */
  lemma AuthAcceptedExactly(data: seq<byte>, key: Key)
    ensures DetectGhostAuth(data, key) <==>
            exists before, spaces, after :: Splits(Lossy(data), before, spaces, HexEncode(key), after)
  {
    hide Splits, Lossy, DetectGhostAuth, HexEncode;
    if before, spaces, after :| Splits(Lossy(data), before, spaces, HexEncode(key), after) {
      FirstMarkerDecides(data, before, spaces, HexEncode(key), after, key);
    }
    if DetectGhostAuth(data, key) {
      var before, spaces, after := AcceptedSplits(data, key);
    }
  }

  lemma AcceptedSplits(data: seq<byte>, key: Key) returns (before: Chars, spaces: Chars, after: Chars)
    requires DetectGhostAuth(data, key)
    ensures Splits(Lossy(data), before, spaces, HexEncode(key), after)
  {
    hide Whitespace, Find, Lossy, Word, TrimStart, ByteLen, HexEncode, StartsWith, AllSpace, NoSpace;
    var rest: Chars;
    before, rest := FindIsFirst(Lossy(data), MARKER);
    assert Lossy(data)[|before| + |MARKER|..] == rest;
    var n := TrimmedSpaces(rest);
    spaces := rest[..n];
    WordIsHead(rest[n..]);
    HexIsPlain(key);
    after := rest[n..][|HexEncode(key)|..];
    SplitRest(rest, n, HexEncode(key));
  }

  lemma SplitRest(rest: Chars, n: nat, word: Chars)
    requires n <= |rest| && word <= rest[n..]
    ensures rest == rest[..n] + (word + rest[n..][|word|..])
  {
    assert rest[n..] == word + rest[n..][|word|..];
  }

  // ---- Requests as bytes -----------------------------------------------------------------

  /** A complete text is decoded as it is, whatever follows it. */
  lemma {:induction false} LossyAfterText(p: Text, q: seq<byte>)
    ensures Lossy(p + q) == Lossy(p) + Lossy(q)
    decreases |p|
  {
    hide Lossy, CodePoint, SubpartLen;
    if p == [] {
      assert p + q == q;
      NothingIsNothing();
    } else {
      UnitOfText(p, q);
      LossyAfterText(p[Unit(p).0..], q);
      LossyJoins(p, q);
    }
  }

  lemma NothingIsNothing()
    ensures Lossy([]) == []
  {}

  lemma UnitOfText(p: seq<byte>, q: seq<byte>)
    requires CharLen(p) > 0
    ensures Unit(p + q) == Unit(p)
  {}

  /** So the token made from `sent` is accepted exactly by the server whose key it is, with any white space around it. */
  lemma TokenAcceptedExactly(before: seq<byte>, spaces: Text, sent: Key, after: seq<byte>, key: Key)
    requires Find(Lossy(before), MARKER).None?
    requires AllSpace(Lossy(spaces))
    requires Lossy(after) == [] || Whitespace(Lossy(after)[0])
    ensures DetectGhostAuth(before + (MARKER + (spaces + (CreateAuthToken(sent) + after))), key) <==> sent == key
  {
    hide Whitespace, Find, Lossy, DetectGhostAuth, HexEncode, AllSpace, StartsWith;
    var token := HexEncode(sent);
    HexIsPlain(sent);
    RequestText(before, spaces, token, after);
    FirstMarkerDecides(before + (MARKER + (spaces + (token + after))), Lossy(before), Lossy(spaces), token, Lossy(after), key);
    HexSeparatesKeys(sent, key);
  }

  lemma MarkerIsText()
    ensures Ascii(MARKER) && ValidUtf8(MARKER)
  {
    hide ValidUtf8;
    AsciiIsValid(MARKER);
  }

  lemma RequestText(before: seq<byte>, spaces: Text, token: seq<byte>, after: seq<byte>)
    requires Ascii(token)
    ensures Lossy(before + (MARKER + (spaces + (token + after)))) ==
            Lossy(before) + (MARKER + (Lossy(spaces) + (token + Lossy(after))))
  {
    hide Lossy, Ascii, ValidUtf8;
    MarkerIsText();
    TextInFront(before, MARKER, spaces, token, after);
  }

  lemma TextInFront(before: seq<byte>, marker: Text, spaces: Text, token: seq<byte>, after: seq<byte>)
    requires Ascii(marker) && marker != [] && Ascii(token)
    ensures Lossy(before + (marker + (spaces + (token + after)))) ==
            Lossy(before) + (marker + (Lossy(spaces) + (token + Lossy(after))))
  {
    hide Lossy, ValidUtf8;
    AsciiIsValid(token);
    LossySplits(before, marker + (spaces + (token + after)));
    LossyAfterText(marker, spaces + (token + after));
    LossyAfterText(spaces, token + after);
    LossyAfterText(token, after);
    LossyOfAscii(marker);
    LossyOfAscii(token);
  }

  // ---- What ghost-client sends -------------------------------------------------------------

  /** ASCII characters as bytes. */
  function Latin(s: string): (r: seq<byte>)
    ensures |r| == |s| && Ascii(r)
    ensures forall i :: 0 <= i < |s| ==> r[i] == s[i] as int % 0x80
  {
    seq(|s|, i requires 0 <= i < |s| => s[i] as int % 0x80)
  }

  const BUILT_IN_SECRET := "ghost_default_key!"
  const REQUEST_LINE := "GET /ghost HTTP/1.1\r\nHost: "
  const LATER_HEADERS := "Connection: upgrade\r\nUpgrade: ghost-tunnel\r\n\r\n"

  /** The end of the line, and the other headers. */
  function RequestEnd(): seq<byte> { Latin("\r\n") + Latin(LATER_HEADERS) }

  /** The request of `connect_reality` up to the header with the token. */
  function RequestHead(maskDomain: Text): seq<byte> {
    Latin(REQUEST_LINE) + (maskDomain + Latin("\r\n"))
  }

  function ClientRequest(maskDomain: Text): seq<byte> {
    RequestHead(maskDomain) + (MARKER + (Latin(" ") + (HexEncode(Latin(BUILT_IN_SECRET)) + RequestEnd())))
  }

  predicate OccursAt(s: Chars, t: Chars, j: nat) { j + |t| <= |s| && s[j..j + |t|] == t }

  lemma TailSlice(s: Chars, j: nat, n: nat)
    requires 1 <= j && j + n <= |s|
    ensures s[j..j + n] == s[1..][j - 1..j - 1 + n]
  {}

  lemma {:induction false} FoundSomewhere(s: Chars, t: Chars)
    ensures Find(s, t).None? <==> forall j: nat :: !OccursAt(s, t, j)
  {
    if StartsWith(s, t) {
      assert OccursAt(s, t, 0);
    } else if s == [] {
      assert forall j: nat :: OccursAt(s, t, j) ==> j == 0;
    } else {
      FoundSomewhere(s[1..], t);
      forall j: nat
        ensures OccursAt(s, t, j) <==> j > 0 && OccursAt(s[1..], t, j - 1)
      {
        if j > 0 && j + |t| <= |s| {
          TailSlice(s, j, |t|);
        }
      }
      if k: nat :| OccursAt(s[1..], t, k) {
        assert OccursAt(s, t, k + 1);
      }
    }
  }

  /** Without an X before it and without a line end in it, a marker lies wholly inside the host name. */
  lemma MarkerInTheMiddle(a: Chars, m: Chars, b: Chars)
    requires 88 !in a && Find(m, MARKER).None?
    requires b == [13, 10]
    ensures Find(a + (m + b), MARKER).None?
  {
    var s := a + (m + b);
    forall j: nat
      ensures !OccursAt(s, MARKER, j)
    {
      if OccursAt(s, MARKER, j) {
        assert s[j] == MARKER[0] && s[j + 12] == MARKER[12];
        assert j >= |a| && j + 12 < |a| + |m|;
        assert m[j - |a|..j - |a| + 13] == s[j..j + 13];
        assert OccursAt(m, MARKER, j - |a|);
        FoundSomewhere(m, MARKER);
      }
    }
    FoundSomewhere(s, MARKER);
  }

  lemma NoXInRequestLine()
    ensures 88 !in Latin(REQUEST_LINE)
  {
    assert forall i :: 0 <= i < |REQUEST_LINE| ==> REQUEST_LINE[i] < 128 as char && REQUEST_LINE[i] != 'X';
  }

  lemma HeadHasNoMarker(maskDomain: Text)
    requires Find(Lossy(maskDomain), MARKER).None?
    ensures Find(Lossy(RequestHead(maskDomain)), MARKER).None?
  {
    var a, b := Latin(REQUEST_LINE), Latin("\r\n");
    assert b == [13, 10];
    NoXInRequestLine();
    hide Find, Lossy, Latin;
    AsciiIsValid(a);
    LossyAfterText(a, maskDomain + b);
    LossyAfterText(maskDomain, b);
    LossyOfAscii(a);
    LossyOfAscii(b);
    MarkerInTheMiddle(a, Lossy(maskDomain), b);
  }

  lemma RequestParts()
    ensures var token, end := HexEncode(Latin(BUILT_IN_SECRET)), RequestEnd();
            && |token| == 36 && Ascii(token) && NoSpace(token)
            && Latin(" ") == [32] && AllSpace([32]) && Ascii(end) && end != [] && Whitespace(end[0])
  {
    hide HexEncode;
    HexIsPlain(Latin(BUILT_IN_SECRET));
    assert |BUILT_IN_SECRET| == 18 && Latin("\r\n")[0] == 13;
  }

  /** The token ghost-client sends is made of an 18-byte secret, so every server refuses it, whatever its key. */
  lemma ClientTokenRefused(maskDomain: Text, key: Key)
    requires Find(Lossy(maskDomain), MARKER).None?
    ensures !DetectGhostAuth(ClientRequest(maskDomain), key)
  {
    hide Find, Lossy, DetectGhostAuth, HexEncode, StartsWith, Latin, Whitespace, AllSpace, NoSpace, RequestHead, RequestEnd;
    var head, space, token, end := RequestHead(maskDomain), Latin(" "), HexEncode(Latin(BUILT_IN_SECRET)), RequestEnd();
    RequestParts();
    HexIsPlain(key);
    HeadHasNoMarker(maskDomain);
    AsciiIsValid(space);
    LossyOfAscii(space);
    LossyOfAscii(end);
    RequestText(head, space, token, end);
    FirstMarkerDecides(ClientRequest(maskDomain), Lossy(head), space, token, end, key);
  }
}
