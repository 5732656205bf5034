/** Frame and address encoding of the Ghost protocol (ghost-common). */
module Codec {
  import opened Bytes
  import opened Utf8
  import opened Buffers

  const PROTOCOL_VERSION: byte := 1
  const USER_ID_LEN := 16
  const MAX_PADDING_LEN := 255

  const ADDR_TYPE_NONE: byte := 0
  const ADDR_TYPE_IPV4: byte := 1
  const ADDR_TYPE_DOMAIN: byte := 3
  const ADDR_TYPE_IPV6: byte := 4

  type Octets4 = s: seq<byte> | |s| == 4 witness [0, 0, 0, 0]
  type Octets16 = s: seq<byte> | |s| == 16 witness [0, 0, 0, 0, 0, 0, 0, 0, 0, 0, 0, 0, 0, 0, 0, 0]
  type UserId = Octets16

  datatype ProtocolError =
    | InvalidVersion(expected: byte, got: byte)
    | InvalidAddrType(addrType: byte)
    | BufferUnderflow(need: nat, have: nat)
    | InvalidDomainLength(len: nat)

  datatype TargetAddr =
    | NoAddr
    | IpV4(ip4: Octets4, port4: u16)
    | IpV6(ip6: Octets16, port6: u16, flowinfo: u32, scopeId: u32)
    | Domain(name: Text, port: u16)

  datatype GhostFrame = GhostFrame(
    version: byte, userId: UserId, target: TargetAddr, payload: seq<byte>, padding: seq<byte>)

  /** `GhostFrame::new`, then `with_random_padding` drawing `padding`. */
  function NewFrame(userId: UserId, target: TargetAddr, payload: seq<byte>, padding: seq<byte>): GhostFrame {
    GhostFrame(PROTOCOL_VERSION, userId, target, payload, padding)
  }

  // ---- What the encoders write -------------------------------------------

  function EncodedLen(a: TargetAddr): nat {
    match a
    case NoAddr => 1
    case IpV4(_, _) => 1 + 4 + 2
    case IpV6(_, _, _, _) => 1 + 16 + 2
    case Domain(d, _) => 1 + 1 + |d| + 2
  }

  /** The addresses `TargetAddr::encode` does not refuse. */
  predicate Encodable(a: TargetAddr) {
    a.Domain? ==> |a.name| <= 255
  }

  function AddrBytes(a: TargetAddr): seq<byte>
    requires Encodable(a)
  {
    match a
    case NoAddr => [ADDR_TYPE_NONE]
    case IpV4(ip, port) => [ADDR_TYPE_IPV4] + ip + Be16(port)
    case IpV6(ip, port, _, _) => [ADDR_TYPE_IPV6] + ip + Be16(port)
    case Domain(name, port) => [ADDR_TYPE_DOMAIN, |name|] + name + Be16(port)
  }

  /** Everything up to the padding-length byte. */
  function FrameHead(f: GhostFrame): seq<byte>
    requires Encodable(f.target)
  {
    [f.version] + f.userId + (AddrBytes(f.target) + PayloadField(f.payload))
  }

  function PayloadField(payload: seq<byte>): seq<byte> {
    Be16(LowU16(|payload|)) + payload
  }

  function PaddingField(padding: seq<byte>): seq<byte> {
    [LowU8(|padding|)] + padding
  }

  function FrameBytes(f: GhostFrame): seq<byte>
    requires Encodable(f.target)
  {
    FrameHead(f) + PaddingField(f.padding)
  }

  method PutAddress(buf: BytesMut, kind: seq<byte>, host: seq<byte>, port: u16)
    modifies buf
    ensures buf.data == old(buf.data) + (kind + host + Be16(port))
  {
    ghost var before := buf.data;
    buf.PutSlice(kind);
    buf.PutSlice(host);
    buf.PutU16(port);
    assert buf.data == before + (kind + host + Be16(port));
  }

  /** On refusal the type byte has already been written, as in the source. */
  method EncodeAddr(a: TargetAddr, buf: BytesMut) returns (r: Result<(), ProtocolError>)
    modifies buf
    ensures r.Ok? <==> Encodable(a)
    ensures Encodable(a) ==> buf.data == old(buf.data) + AddrBytes(a)
    ensures !Encodable(a) ==>
              r == Err(InvalidDomainLength(|a.name|)) && buf.data == old(buf.data) + [ADDR_TYPE_DOMAIN]
  {
    match a {
    case NoAddr =>
      buf.PutU8(ADDR_TYPE_NONE);
    case IpV4(ip, port) =>
      PutAddress(buf, [ADDR_TYPE_IPV4], ip, port);
    case IpV6(ip, port, _, _) =>
      PutAddress(buf, [ADDR_TYPE_IPV6], ip, port);
    case Domain(name, port) =>
      if |name| > 255 {
        buf.PutU8(ADDR_TYPE_DOMAIN);
        return Err(InvalidDomainLength(|name|));
      }
      PutAddress(buf, [ADDR_TYPE_DOMAIN, LowU8(|name|)], name, port);
    }
    return Ok(());
  }

  /** `None` is the panic of `expect` on a domain of more than 255 bytes. */
  method EncodeFrame(f: GhostFrame) returns (out: Option<seq<byte>>)
    ensures out.Some? <==> Encodable(f.target)
    ensures out.Some? ==> out.value == FrameBytes(f)
  {
    var buf := new BytesMut();
    buf.PutU8(f.version);
    buf.PutSlice(f.userId);
    var r := EncodeAddr(f.target, buf);
    if r.Err? {
      return None;
    }
    buf.PutU16(LowU16(|f.payload|));
    buf.PutSlice(f.payload);
    assert buf.data == [f.version] + f.userId + AddrBytes(f.target) + PayloadField(f.payload) == FrameHead(f);
    buf.PutU8(LowU8(|f.padding|));
    buf.PutSlice(f.padding);
    assert buf.data == FrameBytes(f);
    return Some(buf.data);
  }

  // ---- What the decoders accept ------------------------------------------

  /** The outcome of reading an address off the front of `s`, and the bytes left unread. */
  function ParseAddr(s: seq<byte>): (Result<TargetAddr, ProtocolError>, seq<byte>) {
    if |s| < 1 then (Err(BufferUnderflow(1, 0)), s)
    else
      var rest := s[1..];
      if s[0] == ADDR_TYPE_NONE then (Ok(NoAddr), rest)
      else if s[0] == ADDR_TYPE_IPV4 then
        if |rest| < 6 then (Err(BufferUnderflow(6, |rest|)), rest)
        else (Ok(IpV4(rest[..4], FromBe16(rest[4], rest[5]))), rest[6..])
      else if s[0] == ADDR_TYPE_IPV6 then
        if |rest| < 18 then (Err(BufferUnderflow(18, |rest|)), rest)
        else (Ok(IpV6(rest[..16], FromBe16(rest[16], rest[17]), 0, 0)), rest[18..])
      else if s[0] == ADDR_TYPE_DOMAIN then ParseDomain(rest)
      else (Err(InvalidAddrType(s[0])), rest)
  }

  function ParseDomain(s: seq<byte>): (Result<TargetAddr, ProtocolError>, seq<byte>) {
    if |s| < 1 then (Err(BufferUnderflow(1, 0)), s)
    else
      var n: nat, rest := s[0], s[1..];
      if n == 0 then (Err(InvalidDomainLength(0)), rest)
      else if |rest| < n + 2 then (Err(BufferUnderflow(n + 2, |rest|)), rest)
      else if !ValidUtf8(rest[..n]) then (Err(InvalidDomainLength(n)), rest[n..])
      else (Ok(Domain(rest[..n], FromBe16(rest[n], rest[n + 1]))), rest[n + 2..])
  }

  function ParseFrame(b: seq<byte>): Result<GhostFrame, ProtocolError> {
    if |b| < 1 then Err(BufferUnderflow(1, 0))
    else if b[0] != PROTOCOL_VERSION then Err(InvalidVersion(PROTOCOL_VERSION, b[0]))
    else if |b| - 1 < USER_ID_LEN then Err(BufferUnderflow(USER_ID_LEN, |b| - 1))
    else
      var (target, rest) := ParseAddr(b[17..]);
      if target.Err? then Err(target.error)
      else ParseTail(b[1..17], target.value, rest)
  }

  /** Payload and padding, once version, user id and target have been read. */
  function ParseTail(userId: UserId, target: TargetAddr, s: seq<byte>): Result<GhostFrame, ProtocolError> {
    if |s| < 2 then Err(BufferUnderflow(2, |s|))
    else
      var n: nat, rest := FromBe16(s[0], s[1]), s[2..];
      if |rest| < n then Err(BufferUnderflow(n, |rest|))
      else if |rest| - n < 1 then Err(BufferUnderflow(1, |rest| - n))
      else
        Ok(GhostFrame(PROTOCOL_VERSION, userId, target, rest[..n], ReadPadding(rest[n..])))
  }

  /** Padding shorter than announced is accepted as none. */
  function ReadPadding(s: seq<byte>): seq<byte>
    requires |s| >= 1
  {
    var p: nat, pad := s[0], s[1..];
    if p > 0 && |pad| >= p then pad[..p] else []
  }

  method DecodeAddr(buf: BytesMut) returns (r: Result<TargetAddr, ProtocolError>)
    modifies buf
    ensures (r, buf.data) == ParseAddr(old(buf.data))
  {
    if |buf.data| < 1 {
      return Err(BufferUnderflow(1, 0));
    }
    var addrType := buf.GetU8();
    ghost var rest := buf.data;
    assert old(buf.data)[1..] == rest;
    if addrType == ADDR_TYPE_NONE {
      return Ok(NoAddr);
    } else if addrType == ADDR_TYPE_IPV4 {
      if |buf.data| < 4 + 2 {
        return Err(BufferUnderflow(6, |buf.data|));
      }
      var octets := buf.CopyToBytes(4);
      var port := buf.GetU16();
      assert octets == rest[..4] && buf.data == rest[6..];
      return Ok(IpV4(octets, port));
    } else if addrType == ADDR_TYPE_IPV6 {
      if |buf.data| < 16 + 2 {
        return Err(BufferUnderflow(18, |buf.data|));
      }
      var octets := buf.CopyToBytes(16);
      var port := buf.GetU16();
      assert octets == rest[..16] && buf.data == rest[18..];
      return Ok(IpV6(octets, port, 0, 0));
    } else if addrType == ADDR_TYPE_DOMAIN {
      r := DecodeDomain(buf);
    } else {
      return Err(InvalidAddrType(addrType));
    }
  }

  method DecodeDomain(buf: BytesMut) returns (r: Result<TargetAddr, ProtocolError>)
    modifies buf
    ensures (r, buf.data) == ParseDomain(old(buf.data))
  {
    if |buf.data| < 1 {
      return Err(BufferUnderflow(1, 0));
    }
    var n: nat := buf.GetU8();
    ghost var rest := buf.data;
    assert old(buf.data)[1..] == rest;
    if n == 0 {
      return Err(InvalidDomainLength(0));
    }
    if |buf.data| < n + 2 {
      return Err(BufferUnderflow(n + 2, |buf.data|));
    }
    var name := buf.CopyToBytes(n);
    assert rest[..n] == name && rest[n..] == buf.data;
    if !ValidUtf8(name) {
      return Err(InvalidDomainLength(n));
    }
    var port := buf.GetU16();
    assert buf.data == rest[n + 2..];
    return Ok(Domain(name, port));
  }

  method DecodeFrame(b: seq<byte>) returns (r: Result<GhostFrame, ProtocolError>)
    ensures r == ParseFrame(b)
  {
    var buf := new BytesMut.From(b);
    if |buf.data| < 1 {
      return Err(BufferUnderflow(1, 0));
    }
    var version := buf.GetU8();
    if version != PROTOCOL_VERSION {
      return Err(InvalidVersion(PROTOCOL_VERSION, version));
    }
    if |buf.data| < USER_ID_LEN {
      return Err(BufferUnderflow(USER_ID_LEN, |buf.data|));
    }
    var userId := buf.CopyToBytes(USER_ID_LEN);
    assert [version] + userId + buf.data == b;
    assert userId == b[1..17] && buf.data == b[17..];
    var target := DecodeAddr(buf);
    if target.Err? {
      return Err(target.error);
    }
    r := DecodeTail(userId, target.value, buf);
  }

  method DecodeTail(userId: UserId, target: TargetAddr, buf: BytesMut) returns (r: Result<GhostFrame, ProtocolError>)
    modifies buf
    ensures r == ParseTail(userId, target, old(buf.data))
  {
    if |buf.data| < 2 {
      return Err(BufferUnderflow(2, |buf.data|));
    }
    var n: nat := buf.GetU16();
    ghost var rest := buf.data;
    if |buf.data| < n {
      return Err(BufferUnderflow(n, |buf.data|));
    }
    var payload := buf.CopyToBytes(n);
    assert payload == rest[..n];
    if |buf.data| < 1 {
      return Err(BufferUnderflow(1, |buf.data|));
    }
    var p: nat := buf.GetU8();
    assert payload + [p] + buf.data == rest;
    assert rest[n..][1..] == buf.data;
    var padding := [];
    if p > 0 && |buf.data| >= p {
      ghost var pad := buf.data;
      padding := buf.CopyToBytes(p);
      assert padding == pad[..p];
    }
    return Ok(GhostFrame(PROTOCOL_VERSION, userId, target, payload, padding));
  }
}
