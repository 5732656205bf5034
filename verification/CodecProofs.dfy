/** The decoders accept exactly the encodings, give or take the leniency about padding. */
module CodecProofs {
  import opened Bytes
  import opened Utf8
  import opened Codec

  // ---- Addresses ---------------------------------------------------------

  /** What a decoded address can be: a named domain is non-empty, and IPv6 carries no flow or scope. */
  predicate WellFormedAddr(a: TargetAddr) {
    match a
    case NoAddr => true
    case IpV4(_, _) => true
    case IpV6(_, _, flowinfo, scopeId) => flowinfo == 0 && scopeId == 0
    case Domain(name, _) => 1 <= |name| <= 255
  }

  lemma AddrBytesLength(a: TargetAddr)
    requires Encodable(a)
    ensures |AddrBytes(a)| == EncodedLen(a)
  {}

  lemma ParseAfterIpV4(ip: Octets4, port: u16, s: seq<byte>)
    ensures ParseAddr([ADDR_TYPE_IPV4] + ip + Be16(port) + s) == (Ok(IpV4(ip, port)), s)
  {
    var b := [ADDR_TYPE_IPV4] + ip + Be16(port) + s;
    assert b[1..] == ip + Be16(port) + s;
    JoinAtPort(b[1..], ip, port, s);
  }

  lemma ParseAfterIpV6(ip: Octets16, port: u16, s: seq<byte>)
    ensures ParseAddr([ADDR_TYPE_IPV6] + ip + Be16(port) + s) == (Ok(IpV6(ip, port, 0, 0)), s)
  {
    var b := [ADDR_TYPE_IPV6] + ip + Be16(port) + s;
    assert b[1..] == ip + Be16(port) + s;
    JoinAtPort(b[1..], ip, port, s);
  }

  lemma ParseAfterDomain(name: Text, port: u16, s: seq<byte>)
    requires 1 <= |name| <= 255
    ensures ParseAddr([ADDR_TYPE_DOMAIN, |name|] + name + Be16(port) + s) == (Ok(Domain(name, port)), s)
  {
    var b := [ADDR_TYPE_DOMAIN, |name|] + name + Be16(port) + s;
    assert b[1..][1..] == name + Be16(port) + s;
    JoinAtPort(b[1..][1..], name, port, s);
  }

  lemma ParseAfterAddrBytes(a: TargetAddr, s: seq<byte>)
    requires WellFormedAddr(a)
    ensures ParseAddr(AddrBytes(a) + s) == (Ok(a), s)
  {
    match a
    case NoAddr => assert (AddrBytes(a) + s)[1..] == s;
    case IpV4(ip, port) => ParseAfterIpV4(ip, port, s);
    case IpV6(ip, port, _, _) => ParseAfterIpV6(ip, port, s);
    case Domain(name, port) => ParseAfterDomain(name, port, s);
  }

  lemma ParsedAddrWasEncoded(s: seq<byte>)
    requires ParseAddr(s).0.Ok?
    ensures WellFormedAddr(ParseAddr(s).0.value)
    ensures s == AddrBytes(ParseAddr(s).0.value) + ParseAddr(s).1
  {
    if s[0] == ADDR_TYPE_DOMAIN {
      ParsedDomainWasEncoded(s);
    } else if s[0] != ADDR_TYPE_NONE {
      ParsedIpWasEncoded(s);
    }
  }

  lemma ParsedIpWasEncoded(s: seq<byte>)
    requires ParseAddr(s).0.Ok? && s[0] in {ADDR_TYPE_IPV4, ADDR_TYPE_IPV6}
    ensures var (a, rest) := ParseAddr(s); WellFormedAddr(a.value) && s == AddrBytes(a.value) + rest
  {
    var n := if s[0] == ADDR_TYPE_IPV4 then 4 else 16;
    SplitAtPort(s[1..], n);
    Prepend([s[0]], s, s[1..][..n], Be16(FromBe16(s[1..][n], s[1..][n + 1])), s[1..][n + 2..]);
  }

  lemma ParsedDomainWasEncoded(s: seq<byte>)
    requires ParseAddr(s).0.Ok? && s[0] == ADDR_TYPE_DOMAIN
    ensures var (a, rest) := ParseAddr(s);
            a.value.Domain? && WellFormedAddr(a.value) && s == AddrBytes(a.value) + rest
  {
    var t := s[1..][1..];
    var n := s[1];
    SplitAtPort(t, n);
    assert s == [s[0], s[1]] + t;
    Prepend([s[0], s[1]], s, t[..n], Be16(FromBe16(t[n], t[n + 1])), t[n + 2..]);
  }

  lemma Prepend(front: seq<byte>, s: seq<byte>, host: seq<byte>, port: seq<byte>, rest: seq<byte>)
    requires s == front + (host + port + rest)
    ensures s == front + host + port + rest
  {}

  /** The address decoder is the inverse of the encoder: it accepts nothing else and leaves the suffix. */
  lemma AddrDecoderExact(s: seq<byte>, a: TargetAddr, rest: seq<byte>)
    ensures ParseAddr(s) == (Ok(a), rest) <==> WellFormedAddr(a) && s == AddrBytes(a) + rest
  {
    if WellFormedAddr(a) {
      ParseAfterAddrBytes(a, rest);
    }
    if ParseAddr(s).0.Ok? {
      ParsedAddrWasEncoded(s);
    }
  }

  lemma AddrEncodingsPrefixFree(a: TargetAddr, s: seq<byte>, b: TargetAddr, t: seq<byte>)
    requires WellFormedAddr(a) && WellFormedAddr(b)
    requires AddrBytes(a) + s == AddrBytes(b) + t
    ensures a == b && s == t
  {
    ParseAfterAddrBytes(a, s);
    ParseAfterAddrBytes(b, t);
  }

  // ---- Frames ------------------------------------------------------------

  predicate WellFormed(f: GhostFrame) {
    && f.version == PROTOCOL_VERSION
    && WellFormedAddr(f.target)
    && |f.payload| <= 0xFFFF
    && |f.padding| <= MAX_PADDING_LEN
  }

  lemma FrameBytesLength(f: GhostFrame)
    requires Encodable(f.target)
    ensures |FrameBytes(f)| == 1 + USER_ID_LEN + EncodedLen(f.target) + 2 + |f.payload| + 1 + |f.padding|
  {
    AddrBytesLength(f.target);
  }

  /** The decoder on the head of `f` followed by anything: only the padding is still open. */
  lemma ParseAfterHead(f: GhostFrame, s: seq<byte>)
    requires WellFormed(f)
    ensures ParseFrame(FrameHead(f) + s) == ParseTail(f.userId, f.target, PayloadField(f.payload) + s)
  {
    var b, intro, addr, field := FrameHead(f) + s, [f.version] + f.userId, AddrBytes(f.target), PayloadField(f.payload);
    assert intro + (addr + field) + s == intro + (addr + (field + s));
    assert b[1..17] == f.userId && b[17..] == addr + (field + s);
    ParseAfterAddrBytes(f.target, field + s);
  }

  lemma TailAfterPayload(f: GhostFrame, s: seq<byte>)
    requires WellFormed(f)
    ensures ParseTail(f.userId, f.target, PayloadField(f.payload) + s) ==
            if s == [] then Err(BufferUnderflow(1, 0)) else Ok(f.(padding := ReadPadding(s)))
  {
    var n := |f.payload|;
    ReadPayloadField(f.payload, s);
    assert (f.payload + s)[..n] == f.payload && (f.payload + s)[n..] == s;
  }

  lemma ReadPayloadField(payload: seq<byte>, s: seq<byte>)
    requires |payload| <= 0xFFFF
    ensures var t := PayloadField(payload) + s;
            |t| >= 2 && FromBe16(t[0], t[1]) == |payload| && t[2..] == payload + s
  {
    hide FromBe16, Be16;
    ReadBe16(|payload|, payload + s);
    Assoc(Be16(|payload|), payload, s);
  }

  lemma HeadThenPadding(f: GhostFrame, s: seq<byte>)
    requires WellFormed(f)
    ensures ParseFrame(FrameHead(f) + s) ==
            if s == [] then Err(BufferUnderflow(1, 0)) else Ok(f.(padding := ReadPadding(s)))
  {
    ParseAfterHead(f, s);
    TailAfterPayload(f, s);
  }

  lemma ParsedTailWasEncoded(userId: UserId, target: TargetAddr, s: seq<byte>)
    requires ParseTail(userId, target, s).Ok?
    ensures var f := ParseTail(userId, target, s).value;
            && f.version == PROTOCOL_VERSION && f.userId == userId && f.target == target
            && |f.payload| <= 0xFFFF && |f.padding| <= MAX_PADDING_LEN
            && |s| > 2 + |f.payload|
            && s == PayloadField(f.payload) + s[2 + |f.payload|..]
  {
    var f := ParseTail(userId, target, s).value;
    FromBe16RoundTrip(s[0], s[1]);
    assert s[2..][..|f.payload|] == s[2..2 + |f.payload|];
  }

  /** What comes out of the decoder is always well-formed, and its head opens the input. */
  lemma ParsedFrameWasEncoded(b: seq<byte>) returns (s: seq<byte>)
    requires ParseFrame(b).Ok?
    ensures WellFormed(ParseFrame(b).value) && |s| >= 1
    ensures b == FrameHead(ParseFrame(b).value) + s
  {
    var addr := b[17..];
    ParsedAddrWasEncoded(addr);
    var (target, tail) := ParseAddr(addr);
    ParsedTailWasEncoded(b[1..17], target.value, tail);
    var f := ParseTail(b[1..17], target.value, tail).value;
    s := tail[2 + |f.payload|..];
    JoinHead(b, f, addr, tail, s);
  }

  lemma JoinHead(b: seq<byte>, f: GhostFrame, addr: seq<byte>, tail: seq<byte>, s: seq<byte>)
    requires WellFormed(f)
    requires |b| >= 17 && b[0] == f.version && b[1..17] == f.userId && b[17..] == addr
    requires addr == AddrBytes(f.target) + tail
    requires tail == PayloadField(f.payload) + s
    ensures b == FrameHead(f) + s
  {
    var intro := [f.version] + f.userId;
    assert b == intro + addr;
    Regroup(intro, AddrBytes(f.target), PayloadField(f.payload), s);
  }

  lemma Regroup(a: seq<byte>, b: seq<byte>, c: seq<byte>, d: seq<byte>)
    ensures a + (b + c) + d == a + (b + (c + d))
  {}

  /** Padding announced by a byte that fewer bytes follow; the decoder reads it as no padding. */
  predicate ShortPadding(s: seq<byte>) {
    |s| >= 1 && s[0] > 0 && |s| - 1 < s[0]
  }

  lemma PaddingExact(s: seq<byte>, padding: seq<byte>)
    requires |s| >= 1 && |padding| <= MAX_PADDING_LEN
    ensures ReadPadding(s) == padding <==> PaddingField(padding) <= s || (padding == [] && ShortPadding(s))
  {
    if PaddingField(padding) <= s {
      assert PaddingField(padding) == s[..1 + |padding|];
      assert s[1..][..|padding|] == s[..1 + |padding|][1..];
    }
    if ReadPadding(s) == padding && padding != [] {
      assert s[..1 + |padding|] == [s[0]] + s[1..][..s[0]];
    }
  }

  lemma PrefixAfterHead(head: seq<byte>, x: seq<byte>, s: seq<byte>)
    ensures head + x <= head + s <==> x <= s
  {
    if head + x <= head + s {
      assert (head + s)[..|head + x|] == head + x;
      assert s[..|x|] == (head + s)[|head|..|head + x|] == x;
    }
  }

  lemma SameHead(b: seq<byte>, head: seq<byte>, s: seq<byte>)
    requires b == head + s
    ensures |head| <= |b| && b[..|head|] == head && b[|head|..] == s
  {}

  /** The bytes the decoder reads as `f`: its encoding and anything after, or its head and short padding. */
  predicate Denotes(b: seq<byte>, f: GhostFrame)
    requires Encodable(f.target)
  {
    var h := |FrameHead(f)|;
    FrameBytes(f) <= b
    || (f.padding == [] && h <= |b| && b[..h] == FrameHead(f) && ShortPadding(b[h..]))
  }

  lemma DenotesByPadding(f: GhostFrame, s: seq<byte>)
    requires WellFormed(f)
    ensures Denotes(FrameHead(f) + s, f) <==>
            PaddingField(f.padding) <= s || (f.padding == [] && ShortPadding(s))
  {
    var head := FrameHead(f);
    SameHead(head + s, head, s);
    PrefixAfterHead(head, PaddingField(f.padding), s);
  }

  lemma DenotesHasHead(b: seq<byte>, f: GhostFrame) returns (s: seq<byte>)
    requires WellFormed(f) && Denotes(b, f)
    ensures |s| >= 1 && b == FrameHead(f) + s
  {
    var head := FrameHead(f);
    s := b[|head|..];
    if FrameBytes(f) <= b {
      SameHead(FrameBytes(f), head, PaddingField(f.padding));
      assert b[..|head|] == FrameBytes(f)[..|head|];
    }
    assert b == b[..|head|] + s;
  }

  /** The decoder's exact domain and inverse. */
  lemma FrameDecoderExact(b: seq<byte>, f: GhostFrame)
    ensures ParseFrame(b) == Ok(f) <==> WellFormed(f) && Denotes(b, f)
  {
    if ParseFrame(b) == Ok(f) {
      var s := ParsedFrameWasEncoded(b);
      DecodesByPadding(f, s);
    }
    if WellFormed(f) && Denotes(b, f) {
      var s := DenotesHasHead(b, f);
      DecodesByPadding(f, s);
    }
  }

  lemma DecodesByPadding(f: GhostFrame, s: seq<byte>)
    requires WellFormed(f) && |s| >= 1
    ensures ParseFrame(FrameHead(f) + s) == Ok(f) <==> Denotes(FrameHead(f) + s, f)
  {
    HeadThenPadding(f, s);
    PaddingExact(s, f.padding);
    DenotesByPadding(f, s);
  }

  /** Self-delimiting round trip, and it fails on every frame that is not well-formed. */
  lemma FrameRoundTrip(f: GhostFrame, s: seq<byte>)
    requires Encodable(f.target)
    ensures ParseFrame(FrameBytes(f) + s) == Ok(f) <==> WellFormed(f)
  {
    FrameDecoderExact(FrameBytes(f) + s, f);
  }

  lemma FrameEncodingInjective(f: GhostFrame, g: GhostFrame)
    requires WellFormed(f) && WellFormed(g)
    requires FrameBytes(f) == FrameBytes(g)
    ensures f == g
  {
    FrameRoundTrip(f, []);
    FrameRoundTrip(g, []);
    assert FrameBytes(f) + [] == FrameBytes(f);
  }

  // ---- Truncated input ---------------------------------------------------

  predicate Underflow<T>(r: Result<T, ProtocolError>) {
    r.Err? && r.error.BufferUnderflow? && r.error.need > r.error.have
  }

  lemma TruncatedAddr(a: TargetAddr, k: nat)
    requires WellFormedAddr(a) && k < |AddrBytes(a)|
    ensures Underflow(ParseAddr(AddrBytes(a)[..k]).0)
  {}

  lemma TakeOfJoin(x: seq<byte>, y: seq<byte>, k: nat)
    requires k <= |x + y|
    ensures (x + y)[..k] == if k > |x| then x + y[..k - |x|] else x[..k]
  {}

  lemma CutPaddingIsNone(padding: seq<byte>, k: nat)
    requires 1 <= k < |PaddingField(padding)| && |padding| <= MAX_PADDING_LEN
    ensures ReadPadding(PaddingField(padding)[..k]) == []
  {}

  /** Cut before the padding-length byte: refused as an underflow.  Cut after it: the padding is lost. */
  lemma TruncatedFrame(f: GhostFrame, k: nat)
    requires WellFormed(f) && k < |FrameBytes(f)|
    ensures k <= |FrameHead(f)| ==> Underflow(ParseFrame(FrameBytes(f)[..k]))
    ensures k > |FrameHead(f)| ==> ParseFrame(FrameBytes(f)[..k]) == Ok(f.(padding := []))
  {
    var head, field := FrameHead(f), PaddingField(f.padding);
    TakeOfJoin(head, field, k);
    if k > |head| {
      CutPaddingIsNone(f.padding, k - |head|);
      HeadThenPadding(f, field[..k - |head|]);
    } else {
      TruncatedHead(f, k);
    }
  }

  /** Behind a version and a user id, the address and what follows it decide. */
  lemma ParseAfterIntro(userId: UserId, rest: seq<byte>)
    ensures var (target, tail) := ParseAddr(rest);
            ParseFrame([PROTOCOL_VERSION] + userId + rest) ==
            if target.Err? then Err(target.error) else ParseTail(userId, target.value, tail)
  {
    hide ParseAddr, ParseTail;
    var b := [PROTOCOL_VERSION] + userId + rest;
    assert b[1..17] == userId && b[17..] == rest;
  }

  lemma TruncatedIntro(b: seq<byte>)
    requires |b| <= 17 && (b != [] ==> b[0] == PROTOCOL_VERSION)
    ensures Underflow(ParseFrame(b))
  {
    hide ParseTail;
  }

  lemma TruncatedHead(f: GhostFrame, k: nat)
    requires WellFormed(f) && k <= |FrameHead(f)|
    ensures Underflow(ParseFrame(FrameHead(f)[..k]))
  {
    hide ParseFrame, ParseAddr, ParseTail, AddrBytes, PayloadField;
    var intro, addr, field := [f.version] + f.userId, AddrBytes(f.target), PayloadField(f.payload);
    TakeOfJoin(intro, addr + field, k);
    if k <= 17 {
      TruncatedIntro(FrameHead(f)[..k]);
    } else {
      TakeOfJoin(addr, field, k - 17);
      ParseAfterIntro(f.userId, (addr + field)[..k - 17]);
      if k - 17 <= |addr| {
        TruncatedTarget(f, k - 17);
      } else {
        ParseAfterAddrBytes(f.target, field[..k - 17 - |addr|]);
        TruncatedTail(f, k - 17 - |addr|);
      }
    }
  }

  lemma TruncatedTarget(f: GhostFrame, k: nat)
    requires WellFormed(f) && k <= |AddrBytes(f.target)|
    ensures var (target, rest) := ParseAddr(AddrBytes(f.target)[..k]);
            Underflow(if target.Err? then Err(target.error) else ParseTail(f.userId, target.value, rest))
  {
    var addr := AddrBytes(f.target);
    if k < |addr| {
      TruncatedAddr(f.target, k);
    } else {
      ParseAfterAddrBytes(f.target, []);
      assert addr[..k] == addr + [];
    }
  }

  lemma TruncatedTail(f: GhostFrame, k: nat)
    requires WellFormed(f) && k <= |PayloadField(f.payload)|
    ensures Underflow(ParseTail(f.userId, f.target, PayloadField(f.payload)[..k]))
  {
    hide ParseTail, FromBe16, Be16;
    if k < 2 {
      VeryShortTail(f.userId, f.target, PayloadField(f.payload)[..k]);
    } else {
      TakeOfJoin(Be16(|f.payload|), f.payload, k);
      assert k == 2 ==> Be16(|f.payload|) + f.payload[..0] == Be16(|f.payload|)[..2];
      ShortTail(f.userId, f.target, |f.payload|, f.payload[..k - 2]);
    }
  }

  lemma VeryShortTail(userId: UserId, target: TargetAddr, s: seq<byte>)
    requires |s| < 2
    ensures Underflow(ParseTail(userId, target, s))
  {}

  lemma ShortTail(userId: UserId, target: TargetAddr, n: u16, s: seq<byte>)
    requires |s| <= n
    ensures Underflow(ParseTail(userId, target, Be16(n) + s))
  {
    ReadBe16(n, s);
  }

  // ---- The layout, byte for byte ------------------------------------------

  lemma Be16Layout(n: u16)
    ensures Be16(n) == [n / 256, n % 256]
    ensures forall hi: byte, lo: byte :: FromBe16(hi, lo) == n <==> 256 * (hi as int) + lo == n
  {}

  /** The bytes of an address. */
  lemma AddrLayout(a: TargetAddr)
    requires Encodable(a)
    ensures match a
            case NoAddr => AddrBytes(a) == [0]
            case IpV4(ip, port) => AddrBytes(a) == [1] + ip + [port / 256, port % 256]
            case IpV6(ip, port, _, _) => AddrBytes(a) == [4] + ip + [port / 256, port % 256]
            case Domain(name, port) => AddrBytes(a) == [3, |name|] + name + [port / 256, port % 256]
  {}

  /** The bytes of a frame whose lengths fit. */
  lemma FrameLayout(f: GhostFrame)
    requires Encodable(f.target) && |f.payload| <= 0xFFFF && |f.padding| <= 0xFF
    ensures FrameBytes(f) ==
            [f.version] + f.userId + AddrBytes(f.target)
            + [|f.payload| / 256, |f.payload| % 256] + f.payload + [|f.padding|] + f.padding
  {
    var n: u16 := |f.payload|;
    assert PayloadField(f.payload) == [n / 256, n % 256] + f.payload;
    hide PayloadField;
    Regroup([f.version] + f.userId, AddrBytes(f.target), PayloadField(f.payload), PaddingField(f.padding));
  }

  // ---- What the decoder refuses, and with what ----------------------------

  /** The announced address, type byte included, is complete and can be named. */
  predicate AddrAt17(b: seq<byte>) {
    && |b| >= 18 && b[0] == 1
    && (|| b[17] == 0
        || (b[17] == 1 && |b| >= 24)
        || (b[17] == 4 && |b| >= 36)
        || (b[17] == 3 && |b| >= 19 && b[18] > 0 && |b| >= 21 + b[18] as int && ValidUtf8(b[19..19 + b[18] as int])))
  }

  /** Where the payload length lies behind that address. */
  function AfterAddr(b: seq<byte>): nat
    requires AddrAt17(b)
  {
    if b[17] == 0 then 18 else if b[17] == 1 then 24 else if b[17] == 4 then 36 else 21 + b[18] as int
  }

  /** Up to byte `at` the input is in order, and there it has to hold `need` bytes more. */
  predicate Wants(b: seq<byte>, at: nat, need: nat) {
    || (at == 0 && need == 1)
    || (|b| >= 1 && b[0] == 1 && at == 1 && need == 16)
    || (|b| >= 17 && b[0] == 1 && at == 17 && need == 1)
    || (|b| >= 18 && b[0] == 1 && b[17] == 1 && at == 18 && need == 6)
    || (|b| >= 18 && b[0] == 1 && b[17] == 4 && at == 18 && need == 18)
    || (|b| >= 18 && b[0] == 1 && b[17] == 3 && at == 18 && need == 1)
    || (|b| >= 19 && b[0] == 1 && b[17] == 3 && b[18] > 0 && at == 19 && need == b[18] as int + 2)
    || (AddrAt17(b) && WantsTail(b, AfterAddr(b), at, need))
  }

  /** The payload length, the payload and the padding length, from byte `k` on. */
  predicate WantsTail(b: seq<byte>, k: nat, at: nat, need: nat) {
    || (at == k && need == 2)
    || (|b| >= k + 2 && at == k + 2 && need == 256 * (b[k] as int) + b[k + 1])
    || (|b| >= k + 2 && |b| >= k + 2 + (256 * (b[k] as int) + b[k + 1])
        && at == k + 2 + (256 * (b[k] as int) + b[k + 1]) && need == 1)
  }

  lemma TailErrors(userId: UserId, target: TargetAddr, b: seq<byte>, k: nat, need: nat, have: nat)
    requires k <= |b|
    ensures var r := ParseTail(userId, target, b[k..]);
            && (r.Err? ==> r.error.BufferUnderflow?)
            && (r == Err(BufferUnderflow(need, have)) <==>
                  exists at: nat :: WantsTail(b, k, at, need) && at + have == |b| && have < need)
  {
    var s := b[k..];
    if |s| >= 2 {
      var n: int := 256 * (b[k] as int) + b[k + 1];
      assert s[0] == b[k] && s[1] == b[k + 1] && FromBe16(s[0], s[1]) == n;
      assert have == |s| - 2 && need == n && have < need ==> WantsTail(b, k, k + 2, need);
      assert |s| - 2 >= n && have == |s| - 2 - n && need == 1 && have < 1 ==> WantsTail(b, k, k + 2 + n, need);
    } else {
      assert WantsTail(b, k, k, 2);
    }
  }

  lemma AddrErrors(b: seq<byte>)
    requires |b| >= 17 && b[0] == 1
    ensures ParseAddr(b[17..]).0.Ok? <==> AddrAt17(b)
    ensures AddrAt17(b) ==> AfterAddr(b) <= |b| && ParseAddr(b[17..]).1 == b[AfterAddr(b)..]
    ensures ParseAddr(b[17..]).0.Err? ==>
              ParseAddr(b[17..]).0.error ==
              if |b| == 17 then BufferUnderflow(1, 0)
              else if b[17] !in {0, 1, 3, 4} then InvalidAddrType(b[17])
              else if b[17] == 1 then BufferUnderflow(6, |b| - 18)
              else if b[17] == 4 then BufferUnderflow(18, |b| - 18)
              else if |b| == 18 then BufferUnderflow(1, 0)
              else if b[18] == 0 then InvalidDomainLength(0)
              else if |b| < 21 + b[18] as int then BufferUnderflow(b[18] as int + 2, |b| - 19)
              else InvalidDomainLength(b[18])
  {
    hide ValidUtf8, FromBe16;
    var s := b[17..];
    if |s| >= 1 {
      assert s[1..] == b[18..];
      assert |b| >= 24 ==> b[18..][6..] == b[24..];
      assert |b| >= 36 ==> b[18..][18..] == b[36..];
      if |s| >= 2 && b[17] == 3 {
        var n: nat := b[18];
        assert b[18..][1..] == b[19..];
        assert |b| >= 21 + n ==> b[19..][..n] == b[19..19 + n] && b[19..][n + 2..] == b[21 + n..];
      }
    }
  }

  /** What the address decoder refuses, with what, and what it leaves unread. */
  lemma AddrRefusals(s: seq<byte>)
    requires ParseAddr(s).0.Err?
    ensures |s| == 0 || s[0] != 0
    ensures var (r, rest) := ParseAddr(s);
            if |s| == 0 then r.error == BufferUnderflow(1, 0) && rest == []
            else if s[0] !in {1, 3, 4} then r.error == InvalidAddrType(s[0]) && rest == s[1..]
            else if s[0] == 1 then r.error == BufferUnderflow(6, |s| - 1) && |s| < 7 && rest == s[1..]
            else if s[0] == 4 then r.error == BufferUnderflow(18, |s| - 1) && |s| < 19 && rest == s[1..]
            else if |s| == 1 then r.error == BufferUnderflow(1, 0) && rest == []
            else if s[1] == 0 then r.error == InvalidDomainLength(0) && rest == s[2..]
            else if |s| < 4 + s[1] as int then r.error == BufferUnderflow(s[1] as int + 2, |s| - 2) && rest == s[2..]
            else r.error == InvalidDomainLength(s[1]) && !ValidUtf8(s[2..2 + s[1] as int]) && rest == s[2 + s[1] as int..]
  {
    hide ValidUtf8;
    if |s| >= 2 && s[0] == 3 {
      assert s[1..][1..] == s[2..];
      assert |s| >= 4 + s[1] as int ==> s[2..][..s[1]] == s[2..2 + s[1] as int] && s[2..][s[1]..] == s[2 + s[1] as int..];
    }
  }

  /** Every refusal of the decoder, exactly. */
  lemma FrameErrorsExact(b: seq<byte>)
    ensures forall want, got :: ParseFrame(b) == Err(InvalidVersion(want, got)) <==> |b| >= 1 && b[0] == got != 1 && want == 1
    ensures forall t :: ParseFrame(b) == Err(InvalidAddrType(t)) <==>
              |b| >= 18 && b[0] == 1 && b[17] == t && t !in {0, 1, 3, 4}
    ensures forall n: nat :: ParseFrame(b) == Err(InvalidDomainLength(n)) <==>
              |b| >= 19 && b[0] == 1 && b[17] == 3 && b[18] == n
              && (n == 0 || (|b| >= 21 + n && !ValidUtf8(b[19..19 + n])))
    ensures forall need: nat, have: nat :: ParseFrame(b) == Err(BufferUnderflow(need, have)) <==>
              exists at: nat :: Wants(b, at, need) && at + have == |b| && have < need
  {
    hide ValidUtf8;
    forall need: nat, have: nat
      ensures ParseFrame(b) == Err(BufferUnderflow(need, have)) <==>
              exists at: nat :: Wants(b, at, need) && at + have == |b| && have < need
    {
      UnderflowExact(b, need, have);
    }
    if |b| >= 17 && b[0] == 1 {
      AddrErrors(b);
      if AddrAt17(b) {
        TailErrors(b[1..17], ParseAddr(b[17..]).0.value, b, AfterAddr(b), 0, 0);
      }
    }
  }

  lemma UnderflowExact(b: seq<byte>, need: nat, have: nat)
    ensures ParseFrame(b) == Err(BufferUnderflow(need, have)) <==>
            exists at: nat :: Wants(b, at, need) && at + have == |b| && have < need
  {
    hide ValidUtf8, ParseTail, ParseAddr, WantsTail;
    if |b| >= 17 && b[0] == 1 {
      AddrErrors(b);
      if AddrAt17(b) {
        TailErrors(b[1..17], ParseAddr(b[17..]).0.value, b, AfterAddr(b), need, have);
        if at: nat :| WantsTail(b, AfterAddr(b), at, need) && at + have == |b| && have < need {
          assert Wants(b, at, need);
        }
      } else {
        UnderflowInAddr(b, need, have);
      }
    } else {
      assert Wants(b, 0, 1);
      assert |b| >= 1 && b[0] == 1 ==> Wants(b, 1, 16);
    }
  }

  lemma UnderflowInAddr(b: seq<byte>, need: nat, have: nat)
    requires |b| >= 17 && b[0] == 1 && !AddrAt17(b)
    ensures ParseAddr(b[17..]).0 == Err(BufferUnderflow(need, have)) <==>
            exists at: nat :: Wants(b, at, need) && at + have == |b| && have < need
  {
    hide ParseAddr;
    AddrErrors(b);
    assert Wants(b, 17, 1);
    if |b| >= 18 {
      assert Wants(b, 18, if b[17] == 1 then 6 else if b[17] == 4 then 18 else 1) || b[17] !in {1, 3, 4};
      assert |b| >= 19 && b[17] == 3 && b[18] > 0 ==> Wants(b, 19, b[18] as int + 2);
    }
  }
}
