/** Both ends of the local SOCKS5 hop: the parser in ghost-client, the connector in ghost-tun. */
module Socks5 {
  import opened Bytes
  import opened Utf8
  import opened Codec
  import opened CodecProofs
  import opened SealedBox
  import opened Framing
  import opened Streams
  import opened HexIds
  import opened TunnelLoops
  import opened Hello

  const BUF_LEN := 256

  /** ATYP, address and port (section 5 of RFC 1928). */
  function AddrField(a: TargetAddr): seq<byte> {
    match a
    case NoAddr => [1, 0, 0, 0, 0] + Be16(0)
    case IpV4(ip, port) => [1] + ip + Be16(port)
    case IpV6(ip, port, _, _) => [4] + ip + Be16(port)
    case Domain(name, port) => [3, LowU8(|name|)] + name + Be16(port)
  }

  /** A frame names its target as SOCKS5 does. */
  lemma TargetIsAddrField(a: TargetAddr)
    requires Encodable(a) && !a.NoAddr?
    ensures AddrBytes(a) == AddrField(a)
  {}

  /** `socks5_reply` */
  method BuildReply(rep: byte, bind: TargetAddr) returns (reply: seq<byte>)
    ensures reply == Reply(rep, bind)
  {
    hide Be16, LowU8;
    reply := [5, rep, 0];
    ghost var head := reply;
    match bind {
      case NoAddr =>
        reply := reply + [1];
        reply := reply + [0, 0, 0, 0];
        reply := reply + Be16(0);
        assert reply == head + ([1, 0, 0, 0, 0] + Be16(0));
      case IpV4(ip, port) =>
        reply := reply + [1];
        reply := reply + ip;
        reply := reply + Be16(port);
        assert reply == head + ([1] + ip + Be16(port));
      case IpV6(ip, port, _, _) =>
        reply := reply + [4];
        reply := reply + ip;
        reply := reply + Be16(port);
        assert reply == head + ([4] + ip + Be16(port));
      case Domain(name, port) =>
        reply := reply + [3];
        reply := reply + [LowU8(|name|)];
        reply := reply + name;
        reply := reply + Be16(port);
        assert reply == head + ([3, LowU8(|name|)] + name + Be16(port));
    }
  }

  function Reply(rep: byte, bind: TargetAddr): seq<byte> { [5, rep, 0] + AddrField(bind) }

  // ---- The local proxy's parser ----------------------------------------------

  datatype Outcome =
    | Accepted(target: TargetAddr)
    | BadVersion(version: byte)
    | NoAcceptableMethod
    | UnsupportedCommand(cmd: byte)
    | BadDomainLength
    | BadDomainText
    | UnsupportedAddrType(atyp: byte)
    | UnexpectedEnd
    | BufferPanic
    | ReplyFailed

  const ZERO_ADDR := IpV4([0, 0, 0, 0], 0)

  /** "0.0.0.0" as a domain name, the bind address of a refusal. */
  function ZeroName(): TargetAddr {
    ZeroTextIsValid();
    Domain(ZERO_TEXT, 0)
  }

  lemma ZeroTextIsValid()
    ensures ValidUtf8(ZERO_TEXT)
  {
    hide ValidUtf8;
    AsciiIsValid(ZERO_TEXT);
  }

  const ZERO_TEXT: seq<byte> := [48, 46, 48, 46, 48, 46, 48]

  /** What the parser concludes from the bytes of a client, what it answers, and what it leaves unread. */
  datatype Parse = Parse(outcome: Outcome, replies: seq<byte>, rest: seq<byte>)

  function ParseClient(w: seq<byte>): Parse {
    if |w| < 2 then Parse(UnexpectedEnd, [], [])
    else if w[0] != 5 then Parse(BadVersion(w[0]), [], w[2..])
    else
      var n: nat := w[1];
      if |w| - 2 < n then Parse(UnexpectedEnd, [], [])
      else if 0 !in w[2..2 + n] then Parse(NoAcceptableMethod, [5, 0xFF], w[2 + n..])
      else
        var p := ParseRequest(w[2 + n..]);
        p.(replies := [5, 0] + p.replies)
  }

  function ParseRequest(w: seq<byte>): Parse {
    if |w| < 4 then Parse(UnexpectedEnd, [], [])
    else if w[0] != 5 then Parse(BadVersion(w[0]), [], w[4..])
    else if w[1] != 1 then Parse(UnsupportedCommand(w[1]), Reply(7, ZeroName()), w[4..])
    else
      var (outcome, rest) := ParseTarget(w[3], w[4..]);
      Parse(outcome, if outcome.Accepted? then Reply(0, ZERO_ADDR) else [], rest)
  }

  function ParseTarget(atyp: byte, w: seq<byte>): (Outcome, seq<byte>) {
    if atyp == 1 then
      if |w| < 6 then (UnexpectedEnd, []) else (Accepted(IpV4(w[..4], FromBe16(w[4], w[5]))), w[6..])
    else if atyp == 3 then
      if |w| < 1 then (UnexpectedEnd, [])
      else
        var n: nat, t := w[0], w[1..];
        if n == 0 then (BadDomainLength, t)
        else if n + 2 > BUF_LEN then (BufferPanic, t)
        else if |t| < n + 2 then (UnexpectedEnd, [])
        else if !ValidUtf8(t[..n]) then (BadDomainText, t[n + 2..])
        else (Accepted(Domain(t[..n], FromBe16(t[n], t[n + 1]))), t[n + 2..])
    else if atyp == 4 then
      if |w| < 18 then (UnexpectedEnd, []) else (Accepted(IpV6(w[..16], FromBe16(w[16], w[17]), 0, 0)), w[18..])
    else (UnsupportedAddrType(atyp), w)
  }

  /** `handle_socks5_client`, up to the hand-over to the tunnel. */
  method HandleClient(input: ReadHalf, output: WriteHalf) returns (r: Outcome)
    requires output.Valid()
    modifies input, output
    ensures output.Valid()
    ensures var p := ParseClient(old(input.Pending()));
            && output.written == output.Clip(old(output.written) + p.replies)
            && (if output.Fits(old(output.written) + p.replies) then r == p.outcome && input.Pending() == p.rest
                else r == ReplyFailed)
  {
    hide ParseRequest, Reply, Concat;
    ghost var w, before := input.Pending(), output.written;
    assert before + [] == before;
    var buf := new byte[BUF_LEN];
    var ok := input.ReadExact(buf, 2);
    if !ok {
      return UnexpectedEnd;
    }
    assert buf[..2][0] == w[0] && buf[..2][1] == w[1] && input.Pending() == w[2..];
    if buf[0] != 5 {
      return BadVersion(buf[0]);
    }
    var n: nat := buf[1];
    ok := input.ReadExact(buf, n);
    if !ok {
      return UnexpectedEnd;
    }
    assert buf[..n] == w[2..][..n] == w[2..2 + n];
    assert input.Pending() == w[2..][n..] == w[2 + n..];
    if 0 !in buf[..n] {
      ok := output.WriteAll([5, 0xFF]);
      return if ok then NoAcceptableMethod else ReplyFailed;
    }
    ghost var p := ParseRequest(input.Pending());
    assert before + ([5, 0] + p.replies) == before + [5, 0] + p.replies;
    ok := output.WriteAll([5, 0]);
    if !ok {
      ClipOfLonger(output, before + [5, 0], p.replies);
      return ReplyFailed;
    }
    r := HandleRequest(buf, input, output);
  }

  method HandleRequest(buf: array<byte>, input: ReadHalf, output: WriteHalf) returns (r: Outcome)
    requires buf.Length == BUF_LEN && output.Valid()
    modifies buf, input, output
    ensures output.Valid()
    ensures var p := ParseRequest(old(input.Pending()));
            && output.written == output.Clip(old(output.written) + p.replies)
            && (if output.Fits(old(output.written) + p.replies) then r == p.outcome && input.Pending() == p.rest
                else r == ReplyFailed)
  {
    hide ParseTarget, Reply, Concat;
    ghost var w, before := input.Pending(), output.written;
    assert before + [] == before;
    var ok := input.ReadExact(buf, 4);
    if !ok {
      return UnexpectedEnd;
    }
    var head := buf[..4];
    assert head[0] == w[0] && head[1] == w[1] && head[3] == w[3] && input.Pending() == w[4..];
    if head[0] != 5 {
      return BadVersion(head[0]);
    }
    if head[1] != 1 {
      var refusal := BuildReply(7, ZeroName());
      ok := output.WriteAll(refusal);
      return if ok then UnsupportedCommand(head[1]) else ReplyFailed;
    }
    r := ReadTarget(head[3], buf, input);
    if r.Accepted? {
      var reply := BuildReply(0, ZERO_ADDR);
      ok := output.WriteAll(reply);
      if !ok {
        return ReplyFailed;
      }
    }
  }

  method ReadTarget(atyp: byte, buf: array<byte>, input: ReadHalf) returns (r: Outcome)
    requires buf.Length == BUF_LEN
    modifies buf, input
    ensures (r, input.Pending()) == ParseTarget(atyp, old(input.Pending()))
  {
    hide Concat;
    ghost var w := input.Pending();
    if atyp == 1 {
      var ok := input.ReadExact(buf, 6);
      if !ok {
        return UnexpectedEnd;
      }
      HostAndPort(w, buf[..6], input.Pending(), 4);
      return Accepted(IpV4(buf[..6][..4], FromBe16(buf[..6][4], buf[..6][5])));
    } else if atyp == 3 {
      r := ReadDomain(buf, input);
    } else if atyp == 4 {
      var ok := input.ReadExact(buf, 18);
      if !ok {
        return UnexpectedEnd;
      }
      HostAndPort(w, buf[..18], input.Pending(), 16);
      return Accepted(IpV6(buf[..18][..16], FromBe16(buf[..18][16], buf[..18][17]), 0, 0));
    } else {
      return UnsupportedAddrType(atyp);
    }
  }

  method ReadDomain(buf: array<byte>, input: ReadHalf) returns (r: Outcome)
    requires buf.Length == BUF_LEN
    modifies buf, input
    ensures (r, input.Pending()) == ParseTarget(3, old(input.Pending()))
  {
    hide Concat;
    ghost var w := input.Pending();
    var ok := input.ReadExact(buf, 1);
    if !ok {
      return UnexpectedEnd;
    }
    assert buf[..1][0] == w[0] && input.Pending() == w[1..];
    var n: nat := buf[0];
    if n == 0 {
      return BadDomainLength;
    }
    if n + 2 > BUF_LEN {
      return BufferPanic;
    }
    ok := input.ReadExact(buf, n + 2);
    if !ok {
      return UnexpectedEnd;
    }
    HostAndPort(w[1..], buf[..n + 2], input.Pending(), n);
    var domain := buf[..n + 2][..n];
    if !ValidUtf8(domain) {
      return BadDomainText;
    }
    return Accepted(Domain(domain, FromBe16(buf[..n + 2][n], buf[..n + 2][n + 1])));
  }

  lemma HostAndPort(w: seq<byte>, read: seq<byte>, rest: seq<byte>, n: nat)
    requires w == read + rest && |read| == n + 2
    ensures read[..n] == w[..n] && read[n] == w[n] && read[n + 1] == w[n + 1] && rest == w[n + 2..]
  {}

  // ---- What the parser accepts -------------------------------------------------

  /** The destinations the parser can name. */
  predicate Nameable(a: TargetAddr) {
    !a.NoAddr? && WellFormedAddr(a) && (a.Domain? ==> |a.name| <= BUF_LEN - 2)
  }

  function TargetField(a: TargetAddr): seq<byte> { AddrField(a)[1..] }

  lemma FieldSplits(a: TargetAddr)
    requires Nameable(a)
    ensures AddrField(a) == [AddrField(a)[0]] + TargetField(a)
  {}

  lemma ParseNamedTarget(a: TargetAddr, rest: seq<byte>)
    requires Nameable(a)
    ensures ParseTarget(AddrField(a)[0], TargetField(a) + rest) == (Accepted(a), rest)
  {
    hide Be16, FromBe16, ValidUtf8;
    match a
    case IpV4(ip, port) => HostField(1, ip, port, rest);
    case IpV6(ip, port, _, _) => HostField(4, ip, port, rest);
    case Domain(name, port) => ParseNamedDomain(name, port, rest);
  }

  lemma HostField(atyp: byte, host: seq<byte>, port: u16, rest: seq<byte>)
    ensures var f, n := [atyp] + host + Be16(port), |host|;
            && f[0] == atyp && |f[1..] + rest| == n + 2 + |rest|
            && (f[1..] + rest)[..n] == host && (f[1..] + rest)[n + 2..] == rest
            && FromBe16((f[1..] + rest)[n], (f[1..] + rest)[n + 1]) == port
  {
    var f := [atyp] + host + Be16(port);
    assert f[1..] + rest == host + Be16(port) + rest;
    JoinAtPort(f[1..] + rest, host, port, rest);
  }

  lemma ParseNamedDomain(name: Text, port: u16, rest: seq<byte>)
    requires 1 <= |name| <= BUF_LEN - 2
    ensures ParseTarget(3, TargetField(Domain(name, port)) + rest) == (Accepted(Domain(name, port)), rest)
  {
    hide Be16, FromBe16, ValidUtf8;
    var w := TargetField(Domain(name, port)) + rest;
    assert AddrField(Domain(name, port)) == [3] + ([|name|] + (name + Be16(port)));
    assert w == [|name|] + (name + Be16(port) + rest);
    assert w[1..] == name + Be16(port) + rest;
    JoinAtPort(w[1..], name, port, rest);
  }

  lemma AcceptedTargetWasNamed(atyp: byte, w: seq<byte>)
    requires ParseTarget(atyp, w).0.Accepted?
    ensures var (r, rest) := ParseTarget(atyp, w);
            Nameable(r.target) && atyp == AddrField(r.target)[0] && w == TargetField(r.target) + rest
  {
    if atyp == 3 {
      AcceptedDomainWasNamed(w);
    } else {
      hide Be16, FromBe16;
      SplitAtPort(w, if atyp == 1 then 4 else 16);
    }
  }

  lemma AcceptedDomainWasNamed(w: seq<byte>)
    requires ParseTarget(3, w).0.Accepted?
    ensures var (r, rest) := ParseTarget(3, w);
            Nameable(r.target) && 3 == AddrField(r.target)[0] && w == TargetField(r.target) + rest
  {
    hide Be16, FromBe16, ValidUtf8;
    var n: nat, t := w[0], w[1..];
    SplitAtPort(t, n);
    var port := FromBe16(t[n], t[n + 1]);
    assert AddrField(Domain(t[..n], port)) == [3] + ([w[0]] + (t[..n] + Be16(port)));
    assert w == [w[0]] + t;
  }

  /** A greeting that offers NO AUTH among `methods`, then a CONNECT request for `a`. */
  function ConnectBytes(methods: seq<byte>, reserved: byte, a: TargetAddr): seq<byte>
    requires |methods| <= 0xFF
  {
    [5, |methods|] + methods + ([5, 1, reserved] + AddrField(a))
  }

  /** A greeting that offers NO AUTH leaves the request behind it to decide. */
  lemma ParseGreeted(methods: seq<byte>, request: seq<byte>)
    requires |methods| <= 0xFF && 0 in methods
    ensures ParseClient([5, |methods|] + (methods + request)) ==
            var p := ParseRequest(request); p.(replies := [5, 0] + p.replies)
  {
    hide ParseRequest;
    Middle([5, |methods|], methods, request);
  }

  lemma WasGreeted(w: seq<byte>) returns (methods: seq<byte>, request: seq<byte>)
    requires ParseClient(w).outcome.Accepted? || ParseClient(w).outcome.BufferPanic?
    ensures |methods| <= 0xFF && 0 in methods && w == [5, |methods|] + (methods + request)
    ensures ParseRequest(request).outcome == ParseClient(w).outcome && ParseRequest(request).rest == ParseClient(w).rest
  {
    hide ParseRequest;
    var n: nat := w[1];
    methods, request := w[2..2 + n], w[2 + n..];
  }

  lemma ParseNamedRequest(reserved: byte, a: TargetAddr, rest: seq<byte>)
    requires Nameable(a)
    ensures ParseRequest([5, 1, reserved] + AddrField(a) + rest) == Parse(Accepted(a), Reply(0, ZERO_ADDR), rest)
  {
    hide AddrField, TargetField, ParseTarget, Reply;
    FieldSplits(a);
    var t := TargetField(a) + rest;
    assert [5, 1, reserved] + AddrField(a) + rest == [5, 1, reserved, AddrField(a)[0]] + t;
    assert ([5, 1, reserved, AddrField(a)[0]] + t)[4..] == t;
    ParseNamedTarget(a, rest);
  }

  lemma ParseConnect(methods: seq<byte>, reserved: byte, a: TargetAddr, rest: seq<byte>)
    requires |methods| <= 0xFF && 0 in methods && Nameable(a)
    ensures ParseClient(ConnectBytes(methods, reserved, a) + rest)
            == Parse(Accepted(a), [5, 0] + Reply(0, ZERO_ADDR), rest)
  {
    hide AddrField, ParseClient, ParseRequest, Reply;
    var intro: seq<byte>, request := [5, |methods|], [5, 1, reserved] + AddrField(a);
    Assoc(intro + methods, request, rest);
    Assoc(intro, methods, request + rest);
    ParseGreeted(methods, request + rest);
    ParseNamedRequest(reserved, a, rest);
  }

  lemma AcceptedRequest(w: seq<byte>)
    requires ParseRequest(w).outcome.Accepted?
    ensures var p := ParseRequest(w);
            |w| >= 3 && Nameable(p.outcome.target) && w == [5, 1, w[2]] + AddrField(p.outcome.target) + p.rest
  {
    hide AddrField, TargetField, ParseTarget, Reply;
    var p := ParseRequest(w);
    AcceptedTargetWasNamed(w[3], w[4..]);
    FieldSplits(p.outcome.target);
    assert w == [w[0], w[1], w[2]] + ([w[3]] + w[4..]);
    Assoc([w[3]], TargetField(p.outcome.target), p.rest);
    Assoc([5, 1, w[2]], AddrField(p.outcome.target), p.rest);
  }

  /** The parser accepts exactly these inputs, as exactly this destination, and leaves exactly this rest. */
  lemma ParserExact(w: seq<byte>, a: TargetAddr, rest: seq<byte>)
    ensures ParseClient(w).outcome == Accepted(a) && ParseClient(w).rest == rest <==>
            exists methods, reserved ::
              |methods| <= 0xFF && 0 in methods && Nameable(a) && w == ConnectBytes(methods, reserved, a) + rest
  {
    hide AddrField, ParseRequest, ParseClient;
    if ParseClient(w).outcome == Accepted(a) && ParseClient(w).rest == rest {
      var methods, request := WasGreeted(w);
      AcceptedRequest(request);
      ConnectRegroups(methods, request[2], a, rest);
      assert w == ConnectBytes(methods, request[2], a) + rest;
    }
    if methods, reserved :| |methods| <= 0xFF && 0 in methods && Nameable(a) && w == ConnectBytes(methods, reserved, a) + rest {
      ParseConnect(methods, reserved, a, rest);
    }
  }

  lemma ConnectRegroups(methods: seq<byte>, reserved: byte, a: TargetAddr, rest: seq<byte>)
    requires |methods| <= 0xFF
    ensures [5, |methods|] + (methods + ([5, 1, reserved] + AddrField(a) + rest)) == ConnectBytes(methods, reserved, a) + rest
  {
    hide AddrField;
    Assoc([5, |methods|], methods, [5, 1, reserved] + AddrField(a) + rest);
    Assoc([5, |methods|] + methods, [5, 1, reserved] + AddrField(a), rest);
  }

  /** A CONNECT request that announces a domain of 255 bytes. */
  predicate LongestDomain(request: seq<byte>) {
    |request| >= 5 && request[0] == 5 && request[1] == 1 && request[3] == 3 && request[4] == 0xFF
  }

  lemma LongestDomainRequest(request: seq<byte>)
    ensures ParseRequest(request).outcome == BufferPanic <==> LongestDomain(request)
  {
    hide Reply, ValidUtf8, FromBe16;
  }

  /** Such a domain, legal in section 5 of RFC 1928, overruns the parser's buffer; nothing else does. */
  lemma LongestDomainOverruns(w: seq<byte>)
    ensures ParseClient(w).outcome == BufferPanic <==>
            exists methods: seq<byte>, request: seq<byte> ::
              |methods| <= 0xFF && 0 in methods && LongestDomain(request) && w == [5, |methods|] + (methods + request)
  {
    hide ParseRequest, ParseClient, LongestDomain;
    if ParseClient(w).outcome == BufferPanic {
      var methods, request := WasGreeted(w);
      LongestDomainRequest(request);
    }
    if methods: seq<byte>, request: seq<byte> :|
         |methods| <= 0xFF && 0 in methods && LongestDomain(request) && w == [5, |methods|] + (methods + request) {
      ParseGreeted(methods, request);
      LongestDomainRequest(request);
    }
  }

  // ---- What the parser refuses, and what it says -----------------------------------

  /** A complete greeting that offers NO AUTH. */
  predicate Greeted(w: seq<byte>) {
    |w| >= 2 && w[0] == 5 && |w| >= 2 + w[1] as int && 0 in w[2..2 + w[1] as int]
  }

  /** Where the request begins. */
  function RequestAt(w: seq<byte>): nat
    requires Greeted(w)
  {
    2 + w[1] as int
  }

  /** And a CONNECT request behind it, up to its ATYP byte at least. */
  predicate Asked(w: seq<byte>) {
    Greeted(w) && |w| >= RequestAt(w) + 4 && w[RequestAt(w)] == 5 && w[RequestAt(w) + 1] == 1
  }

  /** The request's address, from its ATYP byte on. */
  function AskedFor(w: seq<byte>): (t: seq<byte>)
    requires Asked(w)
    ensures t != []
  {
    w[RequestAt(w) + 3..]
  }

  /** An address field that breaks off, told apart by its ATYP byte; the longest domain is not read at all. */
  predicate BreaksOff(t: seq<byte>)
    requires t != []
  {
    || (t[0] == 1 && |t| < 7)
    || (t[0] == 4 && |t| < 19)
    || (t[0] == 3 && (|t| < 2 || (0 < t[1] < 255 && |t| < 4 + t[1] as int)))
  }

  /** A complete domain that is not UTF-8. */
  predicate NotText(t: seq<byte>) {
    && |t| >= 2 && t[0] == 3 && 0 < t[1] < 255 && |t| >= 4 + t[1] as int
    && !ValidUtf8(t[2..2 + t[1] as int])
  }

  lemma TargetRefusals(t: seq<byte>)
    requires t != []
    ensures var r := ParseTarget(t[0], t[1..]).0;
            && (forall a :: r == UnsupportedAddrType(a) <==> t[0] == a && a !in {1, 3, 4})
            && (r == BadDomainLength <==> t[0] == 3 && |t| >= 2 && t[1] == 0)
            && (r == BufferPanic <==> t[0] == 3 && |t| >= 2 && t[1] == 255)
            && (r == BadDomainText <==>
                  NotText(t))
            && (r == UnexpectedEnd <==> BreaksOff(t))
            && r.BadVersion? == r.NoAcceptableMethod? == r.UnsupportedCommand? == false
  {
    hide ValidUtf8, FromBe16;
    if |t| >= 2 && t[0] == 3 && |t| >= 4 + t[1] as int {
      assert t[1..][1..][..t[1]] == t[2..2 + t[1] as int];
    }
  }

  lemma RequestRefusals(q: seq<byte>)
    ensures var p := ParseRequest(q);
            && (p.outcome == UnexpectedEnd <==>
                  |q| < 4 || (q[0] == 5 && q[1] == 1 && BreaksOff(q[3..])))
            && (forall v :: p.outcome == BadVersion(v) <==> |q| >= 4 && q[0] == v != 5)
            && (forall c :: p.outcome == UnsupportedCommand(c) <==> |q| >= 4 && q[0] == 5 && q[1] == c != 1)
            && (!p.outcome.NoAcceptableMethod?)
            && p.replies == (if |q| >= 4 && q[0] == 5 && q[1] != 1 then [5, 7, 0, 3, 7, 48, 46, 48, 46, 48, 46, 48, 0, 0]
                             else if p.outcome.Accepted? then [5, 0, 0, 1, 0, 0, 0, 0, 0, 0] else [])
            && (p.outcome in {BadDomainLength, BadDomainText, BufferPanic} || p.outcome.UnsupportedAddrType? ==>
                  |q| >= 4 && q[0] == 5 && q[1] == 1)
            && (|q| >= 4 && q[0] == 5 && q[1] == 1 ==> p.outcome == ParseTarget(q[3], q[4..]).0)
  {
    hide ParseTarget;
    assert Reply(0, ZERO_ADDR) == [5, 0, 0, 1, 0, 0, 0, 0, 0, 0];
    assert Reply(7, ZeroName()) == [5, 7, 0, 3, 7, 48, 46, 48, 46, 48, 46, 48, 0, 0];
    if |q| >= 4 {
      assert q[3..][1..] == q[4..];
      TargetRefusals(q[3..]);
    }
  }

  /** Every refusal, exactly, by where the client's bytes go wrong. */
  lemma ClientRefusals(w: seq<byte>)
    ensures var r := ParseClient(w).outcome;
            && (forall v :: r == BadVersion(v) <==>
                  (|w| >= 2 && w[0] == v != 5) || (Greeted(w) && |w| >= RequestAt(w) + 4 && w[RequestAt(w)] == v != 5))
            && (r == NoAcceptableMethod <==> |w| >= 2 && w[0] == 5 && |w| >= 2 + w[1] as int && 0 !in w[2..2 + w[1] as int])
            && (forall c :: r == UnsupportedCommand(c) <==>
                  Greeted(w) && |w| >= RequestAt(w) + 4 && w[RequestAt(w)] == 5 && w[RequestAt(w) + 1] == c != 1)
            && (forall a :: r == UnsupportedAddrType(a) <==> Asked(w) && AskedFor(w)[0] == a && a !in {1, 3, 4})
            && (r == BadDomainLength <==> Asked(w) && AskedFor(w)[0] == 3 && |AskedFor(w)| >= 2 && AskedFor(w)[1] == 0)
            && (r == BadDomainText <==>
                  Asked(w) && NotText(AskedFor(w)))
            && (r == UnexpectedEnd <==>
                  || |w| < 2 || (w[0] == 5 && |w| < 2 + w[1] as int)
                  || (Greeted(w) && |w| < RequestAt(w) + 4)
                  || (Asked(w) && BreaksOff(AskedFor(w))))
  {
    hide ValidUtf8, ParseRequest, ParseTarget, BreaksOff;
    if Greeted(w) {
      var q := w[RequestAt(w)..];
      RequestRefusals(q);
      if Asked(w) {
        assert q[3..] == AskedFor(w) && q[4..] == AskedFor(w)[1..];
        TargetRefusals(AskedFor(w));
      }
    }
  }

  /** What follows the first `n` bytes. */
  function Behind(w: seq<byte>, n: nat): seq<byte> { if n <= |w| then w[n..] else [] }

  function ByteAt(w: seq<byte>, n: nat): nat { if n < |w| then w[n] else 0 }

  /** How much of a request is read before it is refused, if `m` is the byte behind its ATYP. */
  function ReadBefore(refusal: Outcome, m: nat): nat {
    match refusal
    case BadDomainLength => 5
    case BufferPanic => 5
    case BadDomainText => 7 + m
    case _ => 4
  }

  lemma Further(w: seq<byte>, r: nat, n: nat)
    requires r <= |w|
    ensures Behind(w[r..], n) == Behind(w, r + n) && ByteAt(w[r..], n) == ByteAt(w, r + n)
  {}

  lemma RequestLeavesUnread(q: seq<byte>)
    ensures var p := ParseRequest(q);
            && !p.outcome.NoAcceptableMethod? && !p.outcome.ReplyFailed?
            && (p.outcome.UnexpectedEnd? ==> p.rest == [])
            && (!p.outcome.UnexpectedEnd? && !p.outcome.Accepted? ==>
                  p.rest == Behind(q, ReadBefore(p.outcome, ByteAt(q, 4))))
  {
    hide Reply, ParseTarget, Behind;
    if |q| >= 4 {
      TargetLeavesUnread(q[3], q[4..]);
      Further(q, 4, 0);
      Further(q, 4, ReadBefore(ParseTarget(q[3], q[4..]).0, ByteAt(q, 4)) - 4);
      Wholly(q);
    }
  }

  lemma Wholly(q: seq<byte>)
    requires |q| >= 4
    ensures Behind(q, 4) == q[4..]
  {}

  lemma TargetLeavesUnread(atyp: byte, t: seq<byte>)
    ensures var (r, rest) := ParseTarget(atyp, t);
            && !r.NoAcceptableMethod? && !r.ReplyFailed? && !r.BadVersion? && !r.UnsupportedCommand?
            && (r.UnexpectedEnd? ==> rest == [])
            && (!r.UnexpectedEnd? && !r.Accepted? ==> rest == Behind(t, ReadBefore(r, ByteAt(t, 0)) - 4))
  {
    hide ValidUtf8, FromBe16;
    if |t| >= 1 {
      assert |t| >= 3 + t[0] as int ==> t[1..][t[0] as int + 2..] == t[3 + t[0] as int..];
    }
  }

  /** What a refused client's bytes leave unread: nothing if they broke off, else what follows a version other than 5, a greeting without NO AUTH, or the part of the request that decided. */
  lemma ClientLeavesUnread(w: seq<byte>)
    ensures var p, r := ParseClient(w), 2 + ByteAt(w, 1);
            && (p.outcome.UnexpectedEnd? ==> p.rest == [])
            && (!p.outcome.UnexpectedEnd? && !Greeted(w) ==> p.rest == Behind(w, if ByteAt(w, 0) != 5 then 2 else r))
            && (!p.outcome.UnexpectedEnd? && !p.outcome.Accepted? && Greeted(w) ==>
                  p.rest == Behind(w, r + ReadBefore(p.outcome, ByteAt(w, r + 4))))
  {
    if Greeted(w) {
      GreetedParse(w);
      var r := RequestAt(w);
      RequestLeavesUnread(w[r..]);
      hide ParseRequest, ReadBefore, ParseClient, Behind;
      Further(w, r, ReadBefore(ParseRequest(w[r..]).outcome, ByteAt(w, r + 4)));
      Further(w, r, 4);
      GreetingLength(w);
    } else {
      hide ParseRequest;
    }
  }

  lemma GreetedParse(w: seq<byte>)
    requires Greeted(w)
    ensures ParseClient(w).outcome == ParseRequest(w[RequestAt(w)..]).outcome
    ensures ParseClient(w).rest == ParseRequest(w[RequestAt(w)..]).rest
  {
    hide ParseRequest;
  }

  lemma GreetingLength(w: seq<byte>)
    requires Greeted(w)
    ensures RequestAt(w) == 2 + ByteAt(w, 1)
  {}

  /** And what the client hears: nothing before a complete greeting, 255 for no method in common, 0 otherwise; then success, a refusal of other commands from 0.0.0.0 as a domain, or nothing. */
  lemma ClientHears(w: seq<byte>)
    ensures var p := ParseClient(w);
            p.replies ==
            if |w| < 2 || w[0] != 5 || |w| < 2 + w[1] as int then []
            else if !Greeted(w) then [5, 255]
            else if p.outcome.UnsupportedCommand? then [5, 0] + [5, 7, 0, 3, 7, 48, 46, 48, 46, 48, 46, 48, 0, 0]
            else if p.outcome.Accepted? then [5, 0] + [5, 0, 0, 1, 0, 0, 0, 0, 0, 0]
            else [5, 0]
  {
    hide ParseRequest;
    if Greeted(w) {
      var q := w[RequestAt(w)..];
      var r := ParseRequest(q).outcome;
      RequestRefusals(q);
      assert r.UnsupportedCommand? ==> r == UnsupportedCommand(r.cmd);
      assert |q| >= 4 && q[0] == 5 && q[1] != 1 ==> r == UnsupportedCommand(q[1]);
    }
  }

  /** Whatever the parser accepts, the server behind the tunnel connects to. */
  lemma RequestReachesServer(w: seq<byte>, keys: Keys, allowed: set<seq<byte>>, userId: UserId, draw: Draw, later: seq<byte>)
    requires ParseClient(w).outcome.Accepted?
    requires Lawful(keys(userId)) && HexEncode(userId) in allowed
    ensures var a := ParseClient(w).outcome.target;
            && Encodable(a)
            && ParseHello(keys, allowed, HelloBytes(Link(keys(userId), userId), a, draw) + later)
               == (Admitted(userId, a, []), later)
  {
    hide ParseClient, ParseHello;
    var a := ParseClient(w).outcome.target;
    ParserExact(w, a, ParseClient(w).rest);
    DestinationPreserved(keys, allowed, userId, a, draw, later);
  }

  // ---- ghost-tun's connector ---------------------------------------------------

  type SocketAddr = a: TargetAddr | a.IpV4? || a.IpV6? witness IpV4([0, 0, 0, 0], 0)

  /** `encode_addr` */
  method EncodeSocketAddr(a: SocketAddr, buf: seq<byte>) returns (out: seq<byte>)
    ensures out == buf + AddrField(a)
  {
    hide Be16;
    match a {
      case IpV4(ip, port) =>
        out := buf + [1];
        out := out + ip;
        out := out + Be16(port);
        assert out == buf + ([1] + ip + Be16(port));
      case IpV6(ip, port, _, _) =>
        out := buf + [4];
        out := out + ip;
        out := out + Be16(port);
        assert out == buf + ([4] + ip + Be16(port));
    }
  }

  const TUN_GREETING: seq<byte> := [5, 1, 0]

  function TunRequest(a: SocketAddr): seq<byte> { [5, 1, 0] + AddrField(a) }

  /** What the address forms on the wire can carry: IPv6 flow and scope are dropped. */
  function Plain(a: SocketAddr): SocketAddr {
    if a.IpV6? then IpV6(a.ip6, a.port6, 0, 0) else a
  }

  /** The local proxy reads the connector's bytes, no more and no less, as its target. */
  lemma ProxyUnderstandsConnector(a: SocketAddr, rest: seq<byte>)
    ensures ParseClient(TUN_GREETING + TunRequest(a) + rest)
            == Parse(Accepted(Plain(a)), [5, 0] + Reply(0, ZERO_ADDR), rest)
  {
    assert AddrField(Plain(a)) == AddrField(a);
    assert TUN_GREETING + TunRequest(a) == ConnectBytes([0], 0, Plain(a));
    ParseConnect([0], 0, Plain(a), rest);
  }

  datatype Connect = Connected | Mismatch(version: byte) | AuthRefused(chosen: byte) | Refused(code: byte) | UnknownAtyp(atyp: byte) | Closed

  /** `skip_socks5_addr`: an ATYP byte and the address it announces. */
  function SkipAddr(w: seq<byte>): (Connect, seq<byte>) {
    if |w| < 1 then (Closed, [])
    else if w[0] == 1 then if |w| - 1 < 6 then (Closed, []) else (Connected, w[7..])
    else if w[0] == 3 then
      if |w| < 2 then (Closed, [])
      else
        var n: nat := w[1];
        if |w| - 2 < n + 2 then (Closed, []) else (Connected, w[n + 4..])
    else if w[0] == 4 then if |w| - 1 < 18 then (Closed, []) else (Connected, w[19..])
    else (UnknownAtyp(w[0]), w[1..])
  }

  /** `socks5_connect` on the proxy's bytes. */
  function ParseReplies(w: seq<byte>): (Connect, seq<byte>) {
    if |w| < 2 then (Closed, [])
    else if w[0] != 5 then (Mismatch(w[0]), w[2..])
    else if w[1] != 0 then (AuthRefused(w[1]), w[2..])
    else if |w| - 2 < 4 then (Closed, [])
    else if w[2] != 5 then (Mismatch(w[2]), w[6..])
    else if w[3] != 0 then (Refused(w[3]), w[6..])
    else SkipAddr(w[6..])
  }

  /** The connector sends its request only once the proxy has accepted NO AUTH. */
  function Said(w: seq<byte>, target: SocketAddr): seq<byte> {
    if |w| < 2 || w[0] != 5 || w[1] != 0 then TUN_GREETING else TUN_GREETING + TunRequest(target)
  }

  method SkipSocksAddr(input: ReadHalf) returns (r: Connect)
    modifies input
    ensures (r, input.Pending()) == SkipAddr(old(input.Pending()))
  {
    hide Concat;
    ghost var w := input.Pending();
    var atyp := new byte[1];
    var ok := input.ReadExact(atyp, 1);
    if !ok {
      return Closed;
    }
    assert atyp[..1][0] == w[0] && input.Pending() == w[1..];
    var n: nat;
    if atyp[0] == 1 {
      n := 6;
    } else if atyp[0] == 3 {
      var len := new byte[1];
      ok := input.ReadExact(len, 1);
      if !ok {
        return Closed;
      }
      assert len[..1][0] == w[1] && input.Pending() == w[2..];
      var domainLen: nat := len[0];
      n := domainLen + 2;
    } else if atyp[0] == 4 {
      n := 18;
    } else {
      return UnknownAtyp(atyp[0]);
    }
    ghost var before := input.Pending();
    var buf := new byte[n];
    ok := input.ReadExact(buf, n);
    if !ok {
      return Closed;
    }
    assert input.Pending() == before[n..];
    return Connected;
  }

  method ConnectThroughProxy(target: SocketAddr, input: ReadHalf, output: WriteHalf) returns (r: Option<Connect>)
    requires output.Valid()
    modifies input, output
    ensures output.Valid()
    ensures r.Some? ==> (r.value, input.Pending()) == ParseReplies(old(input.Pending()))
    ensures var said := old(output.written) + Said(old(input.Pending()), target);
            output.written == output.Clip(said) && (r.None? <==> !output.Fits(said))
  {
    hide AddrField, SkipAddr, Concat;
    ghost var w, before := input.Pending(), output.written;
    Assoc(before, TUN_GREETING, TunRequest(target));
    var ok := output.WriteAll([5, 1, 0]);
    if !ok {
      if Said(w, target) != TUN_GREETING {
        ClipOfLonger(output, before + TUN_GREETING, TunRequest(target));
      }
      return None;
    }
    var buf := new byte[2];
    ok := input.ReadExact(buf, 2);
    if !ok {
      return Some(Closed);
    }
    assert buf[..2][0] == w[0] && buf[..2][1] == w[1] && input.Pending() == w[2..];
    if buf[0] != 5 {
      return Some(Mismatch(buf[0]));
    }
    if buf[1] != 0 {
      return Some(AuthRefused(buf[1]));
    }
    var request := EncodeSocketAddr(target, [5, 1, 0]);
    ok := output.WriteAll(request);
    if !ok {
      return None;
    }
    var resp := new byte[4];
    ok := input.ReadExact(resp, 4);
    if !ok {
      return Some(Closed);
    }
    assert resp[..4][0] == w[2..][0] == w[2] && resp[..4][1] == w[2..][1] == w[3];
    assert input.Pending() == w[2..][4..] == w[6..];
    if resp[0] != 5 {
      return Some(Mismatch(resp[0]));
    }
    if resp[1] != 0 {
      return Some(Refused(resp[1]));
    }
    var skipped := SkipSocksAddr(input);
    return Some(skipped);
  }

  /** An address field as section 5 of RFC 1928 lays it out, whatever its content. */
  predicate IsAddrField(f: seq<byte>) {
    || (|f| == 7 && f[0] == 1)
    || (|f| == 19 && f[0] == 4)
    || (|f| >= 2 && f[0] == 3 && |f| - 4 == f[1])
  }

  lemma SkipExact(w: seq<byte>, rest: seq<byte>)
    ensures SkipAddr(w) == (Connected, rest) <==> exists f :: IsAddrField(f) && w == f + rest
  {
    if SkipAddr(w) == (Connected, rest) {
      SkippedAField(w, rest);
    }
    if f :| IsAddrField(f) && w == f + rest {
      FieldIsSkipped(f, rest);
    }
  }

  lemma SkippedAField(w: seq<byte>, rest: seq<byte>)
    requires SkipAddr(w) == (Connected, rest)
    ensures |rest| <= |w| && IsAddrField(w[..|w| - |rest|]) && w == w[..|w| - |rest|] + rest
  {}

  lemma FieldIsSkipped(f: seq<byte>, rest: seq<byte>)
    requires IsAddrField(f)
    ensures SkipAddr(f + rest) == (Connected, rest)
  {
    assert (f + rest)[|f|..] == rest;
  }

  /** The address field of a reply is skipped whole if and only if its domain's length fits the length byte, which `socks5_reply` truncates. */
  lemma ReplyFieldSkipped(a: TargetAddr, rest: seq<byte>)
    ensures SkipAddr(AddrField(a) + rest) == (Connected, rest) <==> Encodable(a)
  {
    if Encodable(a) {
      FieldIsSkipped(AddrField(a), rest);
    } else {
      assert (AddrField(a) + rest)[..|AddrField(a)|] == AddrField(a);
      assert AddrField(a)[1] == LowU8(|a.name|) < |a.name|;
      if SkipAddr(AddrField(a) + rest) == (Connected, rest) {
        SkippedAField(AddrField(a) + rest, rest);
      }
    }
  }

  /** The connector succeeds exactly when the reply's four-byte head is followed by a complete address field. */
  lemma ConnectorExact(w: seq<byte>, rest: seq<byte>)
    ensures ParseReplies(w) == (Connected, rest) <==>
            && |w| >= 6 && w[..4] == [5, 0, 5, 0]
            && exists f :: IsAddrField(f) && w[6..] == f + rest
  {
    if |w| >= 6 {
      SkipExact(w[6..], rest);
      assert w[..4] == [w[0], w[1], w[2], w[3]];
    }
  }

  /** Every other end of the connector, exactly, and what it has said by then. */
  lemma ConnectorRefusals(w: seq<byte>, target: SocketAddr)
    ensures var r := ParseReplies(w).0;
            && (forall v :: r == Mismatch(v) <==>
                  (|w| >= 2 && w[0] == v != 5) || (|w| >= 6 && w[0] == 5 && w[1] == 0 && w[2] == v != 5))
            && (forall m :: r == AuthRefused(m) <==> |w| >= 2 && w[0] == 5 && w[1] == m != 0)
            && (forall c :: r == Refused(c) <==> |w| >= 6 && w[0] == 5 && w[1] == 0 && w[2] == 5 && w[3] == c != 0)
            && (forall a :: r == UnknownAtyp(a) <==>
                  |w| >= 7 && w[0] == 5 && w[1] == 0 && w[2] == 5 && w[3] == 0 && w[6] == a && a !in {1, 3, 4})
            && (r == Closed <==>
                  || |w| < 2 || (w[0] == 5 && w[1] == 0 && |w| < 6)
                  || (|w| >= 6 && w[0] == 5 && w[1] == 0 && w[2] == 5 && w[3] == 0
                      && (|w| == 6 || (w[6] == 1 && |w| < 13) || (w[6] == 4 && |w| < 25)
                          || (w[6] == 3 && (|w| == 7 || |w| < 10 + w[7] as int)))))
    ensures var (r, rest) := ParseReplies(w);
            match r
            case Connected => true
            case Mismatch(_) => rest == if w[0] != 5 then w[2..] else w[6..]
            case AuthRefused(_) => rest == w[2..]
            case Refused(_) => rest == w[6..]
            case UnknownAtyp(_) => rest == w[7..]
            case Closed => rest == []
    ensures Said(w, target) == [5, 1, 0] + if |w| >= 2 && w[0] == 5 && w[1] == 0 then [5, 1, 0] + AddrField(target) else []
  {}

  /** That head already holds the ATYP byte, so the local proxy's success reply is refused, whatever follows it. */
  lemma ConnectorRefusesLocalProxy(a: SocketAddr, w: seq<byte>, later: seq<byte>)
    ensures var replies := ParseClient(TUN_GREETING + TunRequest(a) + w).replies;
            ParseReplies(replies + later).0 == UnknownAtyp(0)
  {
    hide ParseClient, TunRequest, Be16;
    ProxyUnderstandsConnector(a, w);
    var replies := ParseClient(TUN_GREETING + TunRequest(a) + w).replies;
    assert replies == [5, 0, 5, 0, 0, 1, 0, 0, 0, 0] + Be16(0);
    assert (replies + later)[6..][0] == 0;
  }

  /** `read_socks5_addr` */
  function ReadAddr(w: seq<byte>): (Option<TargetAddr>, seq<byte>) {
    if |w| < 1 then (None, [])
    else
      var t := w[1..];
      if w[0] == 1 then
        if |t| < 6 then (None, []) else (Some(IpV4(t[..4], FromBe16(t[4], t[5]))), t[6..])
      else if w[0] == 4 then
        if |t| < 18 then (None, []) else (Some(IpV6(t[..16], FromBe16(t[16], t[17]), 0, 0)), t[18..])
      else (None, t)
  }

  method ReadSocksAddr(input: ReadHalf) returns (r: Option<TargetAddr>)
    modifies input
    ensures (r, input.Pending()) == ReadAddr(old(input.Pending()))
  {
    hide Concat;
    ghost var w := input.Pending();
    var atyp := new byte[1];
    var ok := input.ReadExact(atyp, 1);
    if !ok {
      return None;
    }
    assert atyp[..1][0] == w[0] && input.Pending() == w[1..];
    if atyp[0] != 1 && atyp[0] != 4 {
      return None;
    }
    var n := if atyp[0] == 1 then 4 else 16;
    var buf := new byte[n + 2];
    ok := input.ReadExact(buf, n + 2);
    if !ok {
      return None;
    }
    HostAndPort(w[1..], buf[..n + 2], input.Pending(), n);
    var port := FromBe16(buf[..n + 2][n], buf[..n + 2][n + 1]);
    return Some(if atyp[0] == 1 then IpV4(buf[..n + 2][..n], port) else IpV6(buf[..n + 2][..n], port, 0, 0));
  }

  /** Reading back an IP address field of a reply recovers the address and consumes exactly the field; nothing else can be read. */
  lemma ReplyAddressRecovered(w: seq<byte>, a: TargetAddr, rest: seq<byte>)
    ensures ReadAddr(w) == (Some(a), rest) <==>
            (a.IpV4? || (a.IpV6? && a.flowinfo == 0 && a.scopeId == 0)) && w == AddrField(a) + rest
    ensures (a.IpV4? || a.IpV6?) ==> ReadAddr(AddrField(a) + rest) == (Some(Plain(a)), rest)
    ensures ReadAddr(w).0.None? ==> ReadAddr(w).1 == if |w| >= 1 && w[0] !in {1, 4} then w[1..] else []
  {
    if a.IpV4? || a.IpV6? {
      FieldIsRead(a, rest);
      assert AddrField(Plain(a)) == AddrField(a);
    }
    if ReadAddr(w) == (Some(a), rest) {
      SplitAtPort(w[1..], if a.IpV4? then 4 else 16);
      assert w == [w[0]] + w[1..];
      Prepend([w[0]], w, w[1..][..if a.IpV4? then 4 else 16], Be16(if a.IpV4? then a.port4 else a.port6), rest);
    }
  }

  lemma FieldIsRead(a: SocketAddr, rest: seq<byte>)
    ensures ReadAddr(AddrField(a) + rest) == (Some(Plain(a)), rest)
  {
    var t := (AddrField(a) + rest)[1..];
    match a
    case IpV4(ip, port) =>
      assert t == ip + Be16(port) + rest;
      JoinAtPort(t, ip, port, rest);
    case IpV6(ip, port, _, _) =>
      assert t == ip + Be16(port) + rest;
      JoinAtPort(t, ip, port, rest);
  }
}
