/** The simplified JA4 fingerprint and its FNV hash (ghost-reality/src/ja4.rs). */
module Ja4 {
  import opened Bytes
  import opened HexIds

  // ---- FNV-1a ----------------------------------------------------------------

  const OFFSET_BASIS: u32 := 0x811c9dc5
  const PRIME := 0x0100_0193

  /** The prime's inverse modulo 2^32. */
  const PRIME_INVERSE := 899433627

  /** Bitwise exclusive or. */
  function Xor(a: nat, b: nat): nat
    decreases a + b
  {
    if a == 0 && b == 0 then 0 else (a + b) % 2 + 2 * Xor(a / 2, b / 2)
  }

  lemma XorDigits(a: nat, b: nat)
    ensures Xor(a, b) % 2 == (a + b) % 2 && Xor(a, b) / 2 == Xor(a / 2, b / 2)
  {
    XorUnfolds(a, b);
    hide Xor;
    Halves(Xor(a, b), (a + b) % 2, Xor(a / 2, b / 2));
  }

  lemma XorUnfolds(a: nat, b: nat)
    ensures Xor(a, b) == (a + b) % 2 + 2 * Xor(a / 2, b / 2)
  {}

  lemma Halves(x: nat, digit: nat, rest: nat)
    requires digit < 2 && x == digit + 2 * rest
    ensures x % 2 == digit && x / 2 == rest
  {}

  lemma {:induction false} XorUndoes(a: nat, b: nat)
    ensures Xor(Xor(a, b), b) == a
    decreases a + b
  {
    hide Xor;
    var x := Xor(a, b);
    XorDigits(a, b);
    XorDigits(x, b);
    if a == 0 && b == 0 {
      XorNothing();
    } else {
      XorUndoes(a / 2, b / 2);
      ParityUndoes(a, b, x);
    }
  }

  lemma ParityUndoes(a: nat, b: nat, x: nat)
    requires x % 2 == (a + b) % 2
    ensures (x + b) % 2 == a % 2
  {}

  lemma XorNothing()
    ensures Xor(0, 0) == 0
  {}

  function PowerOfTwo(k: nat): nat { if k == 0 then 1 else 2 * PowerOfTwo(k - 1) }

  lemma {:induction false} XorFits(a: nat, b: nat, k: nat)
    requires a < PowerOfTwo(k) && b < PowerOfTwo(k)
    ensures Xor(a, b) < PowerOfTwo(k)
  {
    if k > 0 {
      XorFits(a / 2, b / 2, k - 1);
    }
  }

  lemma WordIsPower()
    ensures PowerOfTwo(32) == WORD
  {
    assert PowerOfTwo(8) == 0x100;
    assert PowerOfTwo(16) == 0x1_0000;
    assert PowerOfTwo(24) == 0x100_0000;
  }

  /** `hash ^= b; hash = hash.wrapping_mul(PRIME)` */
  function FnvStep(h: u32, b: byte): u32 { Xor(h, b) * PRIME % WORD }

  function Fnv(h: u32, s: seq<byte>): u32
    decreases |s|
  {
    if s == [] then h else Fnv(FnvStep(h, s[0]), s[1..])
  }

  /** `{:0width$x}`: at least `width` digits. */
  function HexPadded(n: nat, width: nat): seq<byte>
    decreases n + width
  {
    if n == 0 && width == 0 then []
    else HexPadded(n / 16, if width > 0 then width - 1 else 0) + [HexDigit(n % 16)]
  }

  method SimpleHash(s: seq<byte>) returns (r: seq<byte>)
    ensures r == HexPadded(Fnv(OFFSET_BASIS, s), 8)
  {
    hide Xor, HexPadded;
    var hash: u32 := OFFSET_BASIS;
    for i := 0 to |s|
      invariant Fnv(hash, s[i..]) == Fnv(OFFSET_BASIS, s)
    {
      var mixed := Xor(hash, s[i]);
      hash := mixed * PRIME % WORD;
      assert s[i..][1..] == s[i + 1..];
    }
    return HexPadded(hash, 8);
  }

  /** Multiplying by the odd prime loses nothing modulo 2^32. */
  lemma TimesPrimeSeparates(x: u32, y: u32)
    ensures x * PRIME % WORD == y * PRIME % WORD <==> x == y
  {
    if x * PRIME % WORD == y * PRIME % WORD {
      var t := x * PRIME / WORD - y * PRIME / WORD;
      assert (x - y) * PRIME == t * WORD;
      assert PRIME * PRIME_INVERSE == 1 + CARRY * WORD;
      assert (x - y) * (1 + CARRY * WORD) == t * PRIME_INVERSE * WORD;
      assert x - y == (t * PRIME_INVERSE - (x - y) * CARRY) * WORD;
    }
  }

  const CARRY := 3513497

  /** For a fixed byte a step is a bijection on states, and for a fixed state it separates bytes. */
  lemma StepSeparates(h: u32, g: u32, b: byte, c: byte)
    ensures FnvStep(h, b) == FnvStep(g, b) <==> h == g
    ensures FnvStep(h, b) == FnvStep(h, c) <==> b == c
  {
    hide Xor;
    XorIsWord(h, b);
    XorIsWord(g, b);
    XorIsWord(h, c);
    TimesPrimeSeparates(Xor(h, b), Xor(g, b));
    TimesPrimeSeparates(Xor(h, b), Xor(h, c));
    XorUndoes(h, b);
    XorUndoes(g, b);
    XorSymmetric(h, b);
    XorSymmetric(h, c);
    XorUndoes(b, h);
    XorUndoes(c, h);
  }

  lemma XorIsWord(h: u32, b: byte)
    ensures Xor(h, b) < WORD
  {
    WordIsPower();
    XorFits(h, b, 32);
  }

  lemma {:induction false} XorSymmetric(a: nat, b: nat)
    ensures Xor(a, b) == Xor(b, a)
    decreases a + b
  {
    if a != 0 || b != 0 {
      XorSymmetric(a / 2, b / 2);
    }
  }

  lemma {:induction false} SameSuffix(h: u32, g: u32, s: seq<byte>)
    ensures Fnv(h, s) == Fnv(g, s) <==> h == g
    decreases |s|
  {
    hide FnvStep;
    if s != [] {
      StepSeparates(h, g, s[0], s[0]);
      SameSuffix(FnvStep(h, s[0]), FnvStep(g, s[0]), s[1..]);
    }
  }

  lemma {:induction false} FnvAppend(h: u32, s: seq<byte>, t: seq<byte>)
    ensures Fnv(h, s + t) == Fnv(Fnv(h, s), t)
    decreases |s|
  {
    hide FnvStep;
    if s == [] {
      assert s + t == t;
    } else {
      assert (s + t)[1..] == s[1..] + t;
      FnvAppend(FnvStep(h, s[0]), s[1..], t);
    }
  }

  lemma {:induction false} HexSeparates(a: nat, b: nat, width: nat)
    requires HexPadded(a, width) == HexPadded(b, width)
    ensures a == b
    decreases a + b + width
  {
    if (a != 0 && b != 0) || width > 0 {
      var next := if width > 0 then width - 1 else 0;
      var x, y := HexPadded(a / 16, next), HexPadded(b / 16, next);
      assert x + [HexDigit(a % 16)] == y + [HexDigit(b % 16)];
      assert x == (x + [HexDigit(a % 16)])[..|x|] == y;
      assert HexDigit(a % 16) == (x + [HexDigit(a % 16)])[|x|] == HexDigit(b % 16);
      HexSeparates(a / 16, b / 16, next);
    }
  }

  /** Equal texts but for one byte never collide. */
  lemma OneByteSeparates(prefix: seq<byte>, b: byte, c: byte, suffix: seq<byte>)
    ensures var x, y := Fnv(OFFSET_BASIS, prefix + [b] + suffix), Fnv(OFFSET_BASIS, prefix + [c] + suffix);
            HexPadded(x, 8) == HexPadded(y, 8) <==> b == c
  {
    hide FnvStep, HexPadded;
    var h := Fnv(OFFSET_BASIS, prefix);
    FnvAppend(OFFSET_BASIS, prefix + [b], suffix);
    FnvAppend(OFFSET_BASIS, prefix + [c], suffix);
    FnvAppend(OFFSET_BASIS, prefix, [b]);
    FnvAppend(OFFSET_BASIS, prefix, [c]);
    assert [b][1..] == [] && [c][1..] == [];
    assert Fnv(h, [b]) == FnvStep(h, b) && Fnv(h, [c]) == FnvStep(h, c);
    StepSeparates(h, h, b, c);
    SameSuffix(FnvStep(h, b), FnvStep(h, c), suffix);
    var x, y := Fnv(OFFSET_BASIS, prefix + [b] + suffix), Fnv(OFFSET_BASIS, prefix + [c] + suffix);
    if HexPadded(x, 8) == HexPadded(y, 8) {
      HexSeparates(x, y, 8);
    }
  }

  // ---- The fingerprint ---------------------------------------------------------

  datatype Profile = Profile(tlsVersion: u16, cipherSuites: seq<u16>, extensions: seq<u16>)

  predicate Ascending(s: seq<u16>) { forall i, j :: 0 <= i < j < |s| ==> s[i] <= s[j] }

  function Insert(x: u16, s: seq<u16>): seq<u16> {
    if s == [] || x <= s[0] then [x] + s else [s[0]] + Insert(x, s[1..])
  }

  /** `sort()` */
  function Sorted(s: seq<u16>): seq<u16> {
    if s == [] then [] else Insert(s[0], Sorted(s[1..]))
  }

  lemma {:induction false} InsertKeepsElements(x: u16, s: seq<u16>)
    ensures multiset(Insert(x, s)) == multiset{x} + multiset(s)
  {
    if s != [] && x > s[0] {
      InsertKeepsElements(x, s[1..]);
      assert s == [s[0]] + s[1..];
    }
  }

  lemma {:induction false} InsertAscends(x: u16, s: seq<u16>)
    requires Ascending(s)
    ensures Ascending(Insert(x, s))
  {
    if s != [] && x > s[0] {
      InsertAscends(x, s[1..]);
      InsertHolds(x, s[1..], s[0]);
    }
  }

  lemma {:induction false} InsertHolds(x: u16, s: seq<u16>, low: u16)
    requires low <= x && forall i :: 0 <= i < |s| ==> low <= s[i]
    ensures forall j :: 0 <= j < |Insert(x, s)| ==> low <= Insert(x, s)[j]
  {
    if s != [] && x > s[0] {
      InsertHolds(x, s[1..], low);
    }
  }

  lemma {:induction false} SortedAscends(s: seq<u16>)
    ensures Ascending(Sorted(s)) && multiset(Sorted(s)) == multiset(s)
  {
    if s != [] {
      SortedAscends(s[1..]);
      InsertAscends(s[0], Sorted(s[1..]));
      InsertKeepsElements(s[0], Sorted(s[1..]));
      assert s == [s[0]] + s[1..];
    }
  }

  lemma SameSmallest(a: seq<u16>, b: seq<u16>)
    requires Ascending(a) && Ascending(b) && multiset(a) == multiset(b) && a != [] && b != []
    ensures a[0] == b[0]
  {
    assert a[0] in multiset(b) && b[0] in multiset(a);
    var i :| 0 <= i < |b| && b[i] == a[0];
    var j :| 0 <= j < |a| && a[j] == b[0];
    assert b[0] <= b[i] && a[0] <= a[j];
  }

  lemma {:induction false} OneAscendingArrangement(a: seq<u16>, b: seq<u16>)
    requires Ascending(a) && Ascending(b) && multiset(a) == multiset(b)
    ensures a == b
  {
    assert |multiset(a)| == |a| && |multiset(b)| == |b|;
    if a != [] {
      SameSmallest(a, b);
      TailElements(a);
      TailElements(b);
      OneAscendingArrangement(a[1..], b[1..]);
      assert a == [a[0]] + a[1..] && b == [b[0]] + b[1..];
    }
  }

  lemma TailElements(a: seq<u16>)
    requires a != []
    ensures multiset(a[1..]) == multiset(a) - multiset{a[0]}
  {
    assert a == [a[0]] + a[1..];
  }

  function ExtensionText(sorted: seq<u16>): seq<byte> {
    if sorted == [] then [] else HexPadded(sorted[0], 4) + ExtensionText(sorted[1..])
  }

  function VersionText(v: u16): seq<byte> {
    if v == 0x0304 then [116, 49, 51] else if v == 0x0303 then [116, 49, 50] else [116, 120, 120]
  }

  method CalculateJa4(p: Profile) returns (r: seq<byte>)
    ensures r == Fingerprint(p)
  {
    var sorted := Sorted(p.extensions);
    var text: seq<byte> := [];
    for i := 0 to |sorted|
      invariant text + ExtensionText(sorted[i..]) == ExtensionText(sorted)
    {
      assert sorted[i..][1..] == sorted[i + 1..];
      text := text + HexPadded(sorted[i], 4);
    }
    assert text + [] == text;
    var hash := SimpleHash(text);
    var first := if |p.cipherSuites| > 0 then p.cipherSuites[0] else 0;
    var last := if |p.cipherSuites| > 0 then p.cipherSuites[|p.cipherSuites| - 1] else 0;
    return VersionText(p.tlsVersion) + HexPadded(|p.cipherSuites|, 2) + HexPadded(|p.extensions|, 2)
           + HexPadded(first, 4) + HexPadded(last, 4) + hash;
  }

  function Fingerprint(p: Profile): seq<byte> {
    var n := |p.cipherSuites|;
    VersionText(p.tlsVersion) + HexPadded(n, 2) + HexPadded(|p.extensions|, 2)
    + HexPadded(if n > 0 then p.cipherSuites[0] else 0, 4)
    + HexPadded(if n > 0 then p.cipherSuites[n - 1] else 0, 4)
    + HexPadded(Fnv(OFFSET_BASIS, ExtensionText(Sorted(p.extensions))), 8)
  }

  /** The order in which a ClientHello lists its extensions does not matter. */
  lemma ExtensionOrderIrrelevant(p: Profile, shuffled: seq<u16>)
    requires multiset(shuffled) == multiset(p.extensions)
    ensures Fingerprint(p.(extensions := shuffled)) == Fingerprint(p)
  {
    SortedAscends(p.extensions);
    SortedAscends(shuffled);
    OneAscendingArrangement(Sorted(p.extensions), Sorted(shuffled));
    assert |multiset(shuffled)| == |shuffled| && |multiset(p.extensions)| == |p.extensions|;
  }

  // ---- The digits, and published values of the hash -----------------------------

  lemma {:induction false} HexAppend(a: seq<byte>, b: seq<byte>)
    ensures HexEncode(a + b) == HexEncode(a) + HexEncode(b)
  {
    if a == [] {
      assert a + b == b;
    } else {
      assert (a + b)[1..] == a[1..] + b;
      HexAppend(a[1..], b);
    }
  }

  lemma TwoDigits(n: nat, width: nat)
    ensures HexPadded(n, width + 2) == HexPadded(n / 256, width) + HexEncode([n % 256])
  {
    hide HexDigit;
    assert n / 16 / 16 == n / 256 && n % 256 / 16 == n / 16 % 16 && n % 256 % 16 == n % 16;
    assert [n % 256][1..] == [];
    var digits := [HexDigit(n / 16 % 16)] + [HexDigit(n % 16)];
    assert HexEncode([n % 256]) == digits + HexEncode([]) == digits;
    Assoc(HexPadded(n / 256, width), [HexDigit(n / 16 % 16)], [HexDigit(n % 16)]);
  }

  lemma NoDigits()
    ensures HexPadded(0, 0) == []
  {}

  /** A padded number of two, four or eight digits is the hexadecimal form of its bytes, high byte first. */
  lemma PaddedIsHex(n: nat)
    ensures n < 0x100 ==> HexPadded(n, 2) == HexEncode([n])
    ensures n < 0x1_0000 ==> HexPadded(n, 4) == HexEncode([n / 256, n % 256])
    ensures n < WORD ==> HexPadded(n, 8) == HexEncode([n / 0x100_0000, n / 0x1_0000 % 256, n / 256 % 256, n % 256])
  {
    hide HexEncode, HexPadded;
    if n < 0x100 {
      OneByte(n);
    }
    if n < 0x1_0000 {
      TwoBytes(n);
    }
    if n < WORD {
      FourBytes(n);
    }
  }

  lemma OneByte(n: byte)
    ensures HexPadded(n, 2) == HexEncode([n])
  {
    hide HexEncode, HexPadded;
    NoDigits();
    TwoDigits(n, 0);
    assert n / 256 == 0 && n % 256 == n;
    assert [] + HexEncode([n]) == HexEncode([n]);
  }

  lemma TwoBytes(n: u16)
    ensures HexPadded(n, 4) == HexEncode([n / 256, n % 256])
  {
    hide HexEncode, HexPadded;
    var a: byte, b: byte := n / 256, n % 256;
    TwoDigits(n, 2);
    OneByte(a);
    HexAppend([a], [b]);
    assert [a] + [b] == [a, b];
  }

  lemma FourBytes(n: u32)
    ensures HexPadded(n, 8) == HexEncode([n / 0x100_0000, n / 0x1_0000 % 256, n / 256 % 256, n % 256])
  {
    hide HexEncode, HexPadded;
    NoDigits();
    var a: byte, b: byte, c: byte, d: byte := n / 0x100_0000, n / 0x1_0000 % 256, n / 256 % 256, n % 256;
    TwoDigits(n, 6);
    TwoDigits(n / 256, 4);
    TwoDigits(n / 256 / 256, 2);
    TwoDigits(n / 256 / 256 / 256, 0);
    assert n / 256 / 256 == n / 0x1_0000 && n / 256 / 256 / 256 == n / 0x100_0000 && n / 0x100_0000 / 256 == 0;
    HexAppend([a], [b]);
    HexAppend([a, b], [c]);
    HexAppend([a, b, c], [d]);
    assert [a] + [b] == [a, b] && [a, b] + [c] == [a, b, c] && [a, b, c] + [d] == [a, b, c, d];
    assert [] + HexEncode([a]) == HexEncode([a]);
  }

  /** Known values of the 32-bit FNV-1a hash: of the empty text and of "a". */
  lemma FnvVectors()
    ensures Fnv(OFFSET_BASIS, []) == 0x811c9dc5
    ensures Fnv(OFFSET_BASIS, [97]) == 0xe40c292c
  {
    hide Xor;
    XorUnfolds(0x811c9dc5, 97);
    XorUnfolds(0x408e4ee2, 48);
    XorUnfolds(0x20472771, 24);
    XorUnfolds(0x102393b8, 12);
    XorUnfolds(0x0811c9dc, 6);
    XorUnfolds(0x0408e4ee, 3);
    XorUnfolds(0x02047277, 1);
    XorZero(0x0102393b);
    assert Xor(0x811c9dc5, 97) == 0x811c9da4;
    assert [97][1..] == [];
  }

  lemma {:induction false} XorZero(a: nat)
    ensures Xor(a, 0) == a
  {
    if a > 0 {
      XorZero(a / 2);
    }
  }

  /** Two bytes for each extension. */
  function Words(s: seq<u16>): seq<byte> {
    if s == [] then [] else [s[0] / 256, s[0] % 256] + Words(s[1..])
  }

  lemma {:induction false} ExtensionsInHex(s: seq<u16>)
    ensures ExtensionText(s) == HexEncode(Words(s))
  {
    hide HexEncode, HexPadded;
    if s == [] {
      NothingInHex();
    } else {
      ExtensionsInHex(s[1..]);
      PaddedIsHex(s[0]);
      HexAppend([s[0] / 256, s[0] % 256], Words(s[1..]));
    }
  }

  lemma NothingInHex()
    ensures HexEncode([]) == []
  {}

  lemma VersionSpelled(v: u16)
    ensures VersionText(v) == if v == 0x0304 then [116, 49, 51] else if v == 0x0303 then [116, 49, 50] else [116, 120, 120]
  {}

  /** 23 characters: version, both counts, the first and last cipher, and the hash, all but the first in hexadecimal, high digit first. */
  predicate LaidOut(f: seq<byte>, v: seq<byte>, n: byte, m: byte, first: u16, last: u16, hash: u32) {
    && |f| == 23 && |v| == 3 && f[..3] == v
    && f[3..] == HexEncode([n, m, first / 256, first % 256, last / 256, last % 256,
                            hash / 0x100_0000, hash / 0x1_0000 % 256, hash / 256 % 256, hash % 256])
  }

  /** The fingerprint of a profile with fewer than 256 ciphers and extensions; the hash is of the extensions in ascending order, two bytes each. */
  lemma FingerprintLayout(p: Profile, sorted: seq<u16>)
    requires |p.cipherSuites| < 256 && |p.extensions| < 256
    requires Ascending(sorted) && multiset(sorted) == multiset(p.extensions)
    ensures var n := |p.cipherSuites|;
            LaidOut(Fingerprint(p),
                    if p.tlsVersion == 0x0304 then [116, 49, 51] else if p.tlsVersion == 0x0303 then [116, 49, 50] else [116, 120, 120],
                    n, |p.extensions|,
                    if n > 0 then p.cipherSuites[0] else 0, if n > 0 then p.cipherSuites[n - 1] else 0,
                    Fnv(OFFSET_BASIS, HexEncode(Words(sorted))))
  {
    SortedAscends(p.extensions);
    OneAscendingArrangement(sorted, Sorted(p.extensions));
    ExtensionsInHex(sorted);
    VersionSpelled(p.tlsVersion);
    hide VersionText, HexEncode, HexPadded, Fnv, Sorted, ExtensionText, Words, Ascending, LaidOut;
    var n := |p.cipherSuites|;
    LayOut(VersionText(p.tlsVersion), n, |p.extensions|, if n > 0 then p.cipherSuites[0] else 0,
           if n > 0 then p.cipherSuites[n - 1] else 0, Fnv(OFFSET_BASIS, HexEncode(Words(sorted))));
  }

  lemma LayOut(v: seq<byte>, n: byte, m: byte, first: u16, last: u16, hash: u32)
    requires |v| == 3
    ensures LaidOut(v + HexPadded(n, 2) + HexPadded(m, 2) + HexPadded(first, 4) + HexPadded(last, 4) + HexPadded(hash, 8),
                    v, n, m, first, last, hash)
  {
    hide HexEncode, HexPadded;
    OneByte(n);
    OneByte(m);
    TwoBytes(first);
    TwoBytes(last);
    FourBytes(hash);
    var x: seq<byte>, y: seq<byte> := [first / 256, first % 256], [last / 256, last % 256];
    var z: seq<byte> := [hash / 0x100_0000, hash / 0x1_0000 % 256, hash / 256 % 256, hash % 256];
    JoinedHex([n], [m], x, y, z);
    Behind(v, HexEncode([n]), HexEncode([m]), HexEncode(x), HexEncode(y), HexEncode(z));
    HexIsDouble([n] + [m] + x + y + z);
    assert [n] + [m] + x + y + z == [n, m] + x + y + z;
    assert [n, m] + x + y + z == [n, m, first / 256, first % 256, last / 256, last % 256] + z;
    assert [n, m, first / 256, first % 256, last / 256, last % 256] + z ==
           [n, m, first / 256, first % 256, last / 256, last % 256,
            hash / 0x100_0000, hash / 0x1_0000 % 256, hash / 256 % 256, hash % 256];
  }

  lemma JoinedHex(a: seq<byte>, b: seq<byte>, c: seq<byte>, d: seq<byte>, e: seq<byte>)
    ensures HexEncode(a + b + c + d + e) == HexEncode(a) + HexEncode(b) + HexEncode(c) + HexEncode(d) + HexEncode(e)
  {
    hide HexEncode;
    HexAppend(a, b);
    HexAppend(a + b, c);
    HexAppend(a + b + c, d);
    HexAppend(a + b + c + d, e);
  }

  lemma Behind(v: seq<byte>, a: seq<byte>, b: seq<byte>, c: seq<byte>, d: seq<byte>, e: seq<byte>)
    requires |v| == 3
    ensures var f := v + a + b + c + d + e; |f| >= 3 && f[..3] == v && f[3..] == a + b + c + d + e
  {}

  lemma {:induction false} HexIsDouble(s: seq<byte>)
    ensures |HexEncode(s)| == 2 * |s|
  {
    if s != [] {
      HexIsDouble(s[1..]);
    }
  }
}
