/** The userspace TCP NAT of ghost-tun: a flow table, one channel per session, and what their history says. */
module Nat {
  import opened Bytes
  import opened Codec

  datatype FlowKey = FlowKey(srcIp: u32, srcPort: u16, dstIp: u32, dstPort: u16)

  function NewFlowKey(srcIp: Octets4, srcPort: u16, dstIp: Octets4, dstPort: u16): FlowKey {
    FlowKey(FromBe32(srcIp), srcPort, FromBe32(dstIp), dstPort)
  }

  /** The key of packets the other way. */
  function Reverse(k: FlowKey): FlowKey { FlowKey(k.dstIp, k.dstPort, k.srcIp, k.srcPort) }

  /** A parsed TCP segment from the TUN device. */
  datatype Packet = Packet(
    srcIp: Octets4, srcPort: u16, dstIp: Octets4, dstPort: u16, sequence: u32,
    syn: bool, ack: bool, fin: bool, rst: bool, payload: seq<byte>)

  function KeyOf(p: Packet): FlowKey { NewFlowKey(p.srcIp, p.srcPort, p.dstIp, p.dstPort) }

  // ---- Datagrams from the TUN device ---------------------------------------

  /** The protocol number of TCP. */
  const TCP := 6

  predicate IsIpv4(data: seq<byte>) { |data| >= 20 && data[0] / 16 == 4 }

  /** The IHL field (section 3.1 of RFC 791), in bytes. */
  function IpHeaderLen(data: seq<byte>): nat
    requires data != []
  {
    data[0] % 16 * 4
  }

  predicate IpHeaderFits(data: seq<byte>)
    requires data != []
  {
    20 <= IpHeaderLen(data) <= |data|
  }

  /** The data offset (section 3.1 of RFC 9293), in bytes. */
  function TcpHeaderLen(t: seq<byte>): nat
    requires |t| >= 20
  {
    t[12] / 16 * 4
  }

  predicate TcpHeaderFits(t: seq<byte>) { |t| >= 20 && 20 <= TcpHeaderLen(t) <= |t| }

  predicate Flag(flags: byte, weight: nat)
    requires weight > 0
  {
    flags / weight % 2 == 1
  }

  /** The fields `handle_tcp` uses; the rest of both headers, the total length among it, is not looked at. */
  function ReadPacket(data: seq<byte>, t: seq<byte>): Packet
    requires |data| >= 20 && TcpHeaderFits(t)
  {
    Packet(data[12..16], FromBe16(t[0], t[1]), data[16..20], FromBe16(t[2], t[3]), FromBe32(t[4..8]),
           Flag(t[13], 2), Flag(t[13], 16), Flag(t[13], 1), Flag(t[13], 4), t[TcpHeaderLen(t)..])
  }

  /** The tests of `process_packet`, in its order. */
  function ParseDatagram(data: seq<byte>): Option<Packet> {
    if !IsIpv4(data) || !IpHeaderFits(data) || data[9] != TCP then None
    else
      var t := data[IpHeaderLen(data)..];
      if TcpHeaderFits(t) then Some(ReadPacket(data, t)) else None
  }

  /** An IPv4 header with options, laid out as section 3.1 of RFC 791 draws it. */
  predicate IsIpHeader(h: seq<byte>, p: Packet) {
    && 20 <= |h| <= 60 && |h| % 4 == 0
    && h[0] == 0x40 + |h| / 4 && h[9] == 6
    && h[12..16] == p.srcIp && h[16..20] == p.dstIp
  }

  function Bit(b: bool, weight: nat): nat { if b then weight else 0 }

  /** The control bits (section 3.1 of RFC 9293), of which the packet has four. */
  predicate IsControl(b: byte, p: Packet) {
    exists psh, urg, ece, cwr ::
      b == Bit(p.fin, 1) + Bit(p.syn, 2) + Bit(p.rst, 4) + Bit(psh, 8) + Bit(p.ack, 16)
           + Bit(urg, 32) + Bit(ece, 64) + Bit(cwr, 128)
  }

  /** A TCP header with options, laid out as section 3.1 of RFC 9293 draws it. */
  predicate IsTcpHeader(h: seq<byte>, p: Packet) {
    && 20 <= |h| <= 60 && |h| % 4 == 0
    && 256 * (h[0] as int) + h[1] == p.srcPort && 256 * (h[2] as int) + h[3] == p.dstPort
    && 0x100_0000 * (h[4] as int) + 0x1_0000 * (h[5] as int) + 0x100 * (h[6] as int) + h[7] == p.sequence
    && |h| * 4 <= h[12] < |h| * 4 + 16
    && IsControl(h[13], p)
  }

  lemma Peel(n: nat, bit: nat, rest: nat)
    requires bit < 2 && n == bit + 2 * rest
    ensures n % 2 == bit && n / 2 == rest
  {}

  /** Dividing by a weight and taking the parity finds the summand of that weight. */
  lemma SummandsFound(n: nat, d: seq<nat>)
    requires |d| == 8 && forall i :: 0 <= i < 8 ==> d[i] < 2
    requires n == d[0] + 2 * d[1] + 4 * d[2] + 8 * d[3] + 16 * d[4] + 32 * d[5] + 64 * d[6] + 128 * d[7]
    ensures n % 2 == d[0] && n / 2 % 2 == d[1] && n / 4 % 2 == d[2] && n / 16 % 2 == d[4]
  {
    var r4 := d[4] + 2 * d[5] + 4 * d[6] + 8 * d[7];
    var r3 := d[3] + 2 * r4;
    var r2 := d[2] + 2 * r3;
    var r1 := d[1] + 2 * r2;
    Peel(n, d[0], r1);
    Peel(r1, d[1], r2);
    Peel(r2, d[2], r3);
    Peel(r3, d[3], r4);
    Peel(r4, d[4], d[5] + 2 * d[6] + 4 * d[7]);
    Quarters(n);
  }

  lemma Quarters(n: nat)
    ensures n / 4 == n / 2 / 2 && n / 8 == n / 4 / 2 && n / 16 == n / 8 / 2
    ensures n / 32 == n / 16 / 2 && n / 64 == n / 32 / 2 && n / 128 == n / 64 / 2
  {}

  lemma ByteIsSum(n: nat)
    requires n < 256
    ensures n == n % 2 + 2 * (n / 2 % 2) + 4 * (n / 4 % 2) + 8 * (n / 8 % 2) + 16 * (n / 16 % 2)
                 + 32 * (n / 32 % 2) + 64 * (n / 64 % 2) + 128 * (n / 128 % 2)
  {
    Quarters(n);
    Halved(n);
    Halved(n / 2);
    Halved(n / 4);
    Halved(n / 8);
    Halved(n / 16);
    Halved(n / 32);
    Halved(n / 64);
    assert n / 128 < 2;
    Unrolled(n, n / 2, n / 4, n / 8, n / 16, n / 32, n / 64, n / 128,
             n % 2, n / 2 % 2, n / 4 % 2, n / 8 % 2, n / 16 % 2, n / 32 % 2, n / 64 % 2);
  }

  lemma Halved(n: nat)
    ensures n == n % 2 + 2 * (n / 2)
  {}

  lemma Unrolled(n: nat, a: nat, b: nat, c: nat, d: nat, e: nat, f: nat, g: nat,
                 n0: nat, a0: nat, b0: nat, c0: nat, d0: nat, e0: nat, f0: nat)
    requires n == n0 + 2 * a && a == a0 + 2 * b && b == b0 + 2 * c && c == c0 + 2 * d
    requires d == d0 + 2 * e && e == e0 + 2 * f && f == f0 + 2 * g && g < 2
    ensures n == n0 + 2 * a0 + 4 * b0 + 8 * c0 + 16 * d0 + 32 * e0 + 64 * f0 + 128 * (g % 2)
  {}

  lemma FlagsAreBits(b: byte, p: Packet)
    ensures IsControl(b, p) <==> Flag(b, 1) == p.fin && Flag(b, 2) == p.syn && Flag(b, 4) == p.rst && Flag(b, 16) == p.ack
  {
    hide Flag, Bit;
    if psh, urg, ece, cwr :|
         b == Bit(p.fin, 1) + Bit(p.syn, 2) + Bit(p.rst, 4) + Bit(psh, 8) + Bit(p.ack, 16)
              + Bit(urg, 32) + Bit(ece, 64) + Bit(cwr, 128) {
      SummandsAreFlags(b, p, psh, urg, ece, cwr);
    }
    if Flag(b, 1) == p.fin && Flag(b, 2) == p.syn && Flag(b, 4) == p.rst && Flag(b, 16) == p.ack {
      FlagsAreSummands(b, p);
    }
  }

  lemma SummandsAreFlags(b: byte, p: Packet, psh: bool, urg: bool, ece: bool, cwr: bool)
    requires b == Bit(p.fin, 1) + Bit(p.syn, 2) + Bit(p.rst, 4) + Bit(psh, 8) + Bit(p.ack, 16)
                  + Bit(urg, 32) + Bit(ece, 64) + Bit(cwr, 128)
    ensures Flag(b, 1) == p.fin && Flag(b, 2) == p.syn && Flag(b, 4) == p.rst && Flag(b, 16) == p.ack
  {
    SummandsFound(b, [Bit(p.fin, 1), Bit(p.syn, 1), Bit(p.rst, 1), Bit(psh, 1), Bit(p.ack, 1), Bit(urg, 1), Bit(ece, 1), Bit(cwr, 1)]);
  }

  lemma FlagsAreSummands(b: byte, p: Packet)
    requires Flag(b, 1) == p.fin && Flag(b, 2) == p.syn && Flag(b, 4) == p.rst && Flag(b, 16) == p.ack
    ensures IsControl(b, p)
  {
    var n: nat := b;
    ByteIsSum(n);
    SumOfBits(n, n % 2, n / 2 % 2, n / 4 % 2, n / 8 % 2, n / 16 % 2, n / 32 % 2, n / 64 % 2, n / 128 % 2, p);
  }

  lemma SumOfBits(n: nat, fin: nat, syn: nat, rst: nat, psh: nat, ack: nat, urg: nat, ece: nat, cwr: nat, p: Packet)
    requires fin < 2 && syn < 2 && rst < 2 && psh < 2 && ack < 2 && urg < 2 && ece < 2 && cwr < 2
    requires n == fin + 2 * syn + 4 * rst + 8 * psh + 16 * ack + 32 * urg + 64 * ece + 128 * cwr < 256
    requires (fin == 1) == p.fin && (syn == 1) == p.syn && (rst == 1) == p.rst && (ack == 1) == p.ack
    ensures IsControl(n, p)
  {
    assert Bit(p.fin, 1) == fin && Bit(p.syn, 2) == 2 * syn && Bit(p.rst, 4) == 4 * rst && Bit(p.ack, 16) == 16 * ack;
    assert Bit(psh == 1, 8) == 8 * psh && Bit(urg == 1, 32) == 32 * urg;
    assert Bit(ece == 1, 64) == 64 * ece && Bit(cwr == 1, 128) == 128 * cwr;
    hide Bit;
    assert n == Bit(p.fin, 1) + Bit(p.syn, 2) + Bit(p.rst, 4) + Bit(psh == 1, 8) + Bit(p.ack, 16)
                + Bit(urg == 1, 32) + Bit(ece == 1, 64) + Bit(cwr == 1, 128);
  }

  /** A datagram is read as `p` exactly when it is an IPv4 header, a TCP header and `p`'s payload, with whatever options and whatever else the headers say. */
  lemma DatagramExact(data: seq<byte>, p: Packet)
    ensures ParseDatagram(data) == Some(p) <==>
            exists ip, tcp :: IsIpHeader(ip, p) && IsTcpHeader(tcp, p) && data == ip + (tcp + p.payload)
  {
    if ip, tcp :| IsIpHeader(ip, p) && IsTcpHeader(tcp, p) && data == ip + (tcp + p.payload) {
      HeadersAreRead(ip, tcp, p);
    }
    if ParseDatagram(data) == Some(p) {
      ReadHeaders(data, p);
    }
  }

  lemma HeadersAreRead(ip: seq<byte>, tcp: seq<byte>, p: Packet)
    requires IsIpHeader(ip, p) && IsTcpHeader(tcp, p)
    ensures ParseDatagram(ip + (tcp + p.payload)) == Some(p)
  {
    hide IsControl, Flag;
    var t := tcp + p.payload;
    var data := ip + t;
    LengthsRead(ip, tcp, p);
    assert data[|ip|..] == t && t[|tcp|..] == p.payload;
    assert data[12..16] == ip[12..16] && data[16..20] == ip[16..20];
    assert t[4..8] == tcp[4..8];
    FlagsAreBits(tcp[13], p);
  }

  lemma LengthsRead(ip: seq<byte>, tcp: seq<byte>, p: Packet)
    requires IsIpHeader(ip, p) && IsTcpHeader(tcp, p)
    ensures IsIpv4(ip) && IpHeaderLen(ip) == |ip| && TcpHeaderLen(tcp) == |tcp|
    ensures FromBe16(tcp[0], tcp[1]) == p.srcPort && FromBe16(tcp[2], tcp[3]) == p.dstPort
    ensures FromBe32(tcp[4..8]) == p.sequence
  {
    hide IsControl;
  }

  lemma ReadHeaders(data: seq<byte>, p: Packet)
    requires ParseDatagram(data) == Some(p)
    ensures exists ip, tcp :: IsIpHeader(ip, p) && IsTcpHeader(tcp, p) && data == ip + (tcp + p.payload)
  {
    hide IsIpHeader, IsTcpHeader, ReadPacket;
    var n := IpHeaderLen(data);
    var ip, t := data[..n], data[n..];
    ReadIpHeader(data, t, p);
    ReadTcpHeader(data, t, p);
    var tcp := t[..TcpHeaderLen(t)];
    assert t == tcp + p.payload && data == ip + t;
    assert IsIpHeader(ip, p) && IsTcpHeader(tcp, p) && data == ip + (tcp + p.payload);
  }

  lemma ReadIpHeader(data: seq<byte>, t: seq<byte>, p: Packet)
    requires IsIpv4(data) && IpHeaderFits(data) && data[9] == TCP && TcpHeaderFits(t) && ReadPacket(data, t) == p
    ensures IsIpHeader(data[..IpHeaderLen(data)], p)
  {
    hide Flag;
    var ip := data[..IpHeaderLen(data)];
    assert ip[12..16] == data[12..16] && ip[16..20] == data[16..20];
  }

  lemma ReadTcpHeader(data: seq<byte>, t: seq<byte>, p: Packet)
    requires |data| >= 20 && TcpHeaderFits(t) && ReadPacket(data, t) == p
    ensures IsTcpHeader(t[..TcpHeaderLen(t)], p) && p.payload == t[TcpHeaderLen(t)..]
  {
    hide IsControl, Flag;
    FlagsAreBits(t[13], p);
  }

  // ---- Flows ----------------------------------------------------------------

  /** Keys tell flows apart. */
  lemma KeySeparatesFlows(p: Packet, q: Packet)
    ensures KeyOf(p) == KeyOf(q) <==>
            p.srcIp == q.srcIp && p.srcPort == q.srcPort && p.dstIp == q.dstIp && p.dstPort == q.dstPort
  {
    if KeyOf(p) == KeyOf(q) {
      FromBe32Injective(p.srcIp, q.srcIp);
      FromBe32Injective(p.dstIp, q.dstIp);
    }
  }

  /** One session: the initial number and the target its task was started with, its queue, and whether the task still holds the receiver; sends are lost once it does not. */
  datatype Channel = Channel(clientSeq: u32, target: TargetAddr, queue: seq<seq<byte>>, listening: bool)

  /** `channels[k]` lists the sessions ever opened for `k`; `sessions[k]` points at the one in the table. */
  datatype State = State(sessions: map<FlowKey, nat>, channels: map<FlowKey, seq<Channel>>)

  const EMPTY := State(map[], map[])

  function ChannelsOf(channels: map<FlowKey, seq<Channel>>, k: FlowKey): seq<Channel> {
    if k in channels then channels[k] else []
  }

  /** What a SYN starts: a task that connects to where the packet was going. */
  function NewSession(p: Packet): Channel { Channel(p.sequence, IpV4(p.dstIp, p.dstPort), [], true) }

  datatype Event = Segment(packet: Packet) | SessionEnds(flow: FlowKey, n: nat)

  function EventKey(e: Event): FlowKey {
    if e.Segment? then KeyOf(e.packet) else e.flow
  }

  function Enqueue(chs: seq<Channel>, n: nat, message: seq<byte>): seq<Channel> {
    if n < |chs| && chs[n].listening then chs[n := chs[n].(queue := chs[n].queue + [message])] else chs
  }

  function Deafen(chs: seq<Channel>, n: nat): seq<Channel> {
    if n < |chs| then chs[n := chs[n].(listening := false)] else chs
  }

  function StepSegment(s: State, p: Packet): State {
    var k, chs := KeyOf(p), ChannelsOf(s.channels, KeyOf(p));
    if p.rst then s.(sessions := s.sessions - {k})
    else if p.syn && !p.ack then
      if k in s.sessions then s
      else State(s.sessions[k := |chs|], s.channels[k := chs + [NewSession(p)]])
    else if k !in s.sessions then s
    else if p.fin then State(s.sessions - {k}, s.channels[k := Enqueue(chs, s.sessions[k], [])])
    else if p.payload != [] then s.(channels := s.channels[k := Enqueue(chs, s.sessions[k], p.payload)])
    else s
  }

  function StepEvent(s: State, e: Event): State {
    match e
    case Segment(p) => StepSegment(s, p)
    case SessionEnds(k, n) => s.(channels := s.channels[k := Deafen(ChannelsOf(s.channels, k), n)])
  }

  function Run(h: seq<Event>): State {
    if h == [] then EMPTY else StepEvent(Run(h[..|h| - 1]), h[|h| - 1])
  }

  // ---- The implementation -------------------------------------------------

  class TcpNatTable {
    var sessions: map<FlowKey, nat>

    constructor ()
      ensures sessions == map[]
    {
      sessions := map[];
    }

    method Insert(k: FlowKey, tx: nat)
      modifies this
      ensures sessions == old(sessions)[k := tx]
    {
      sessions := sessions[k := tx];
    }

    method Get(k: FlowKey) returns (tx: Option<nat>)
      ensures tx == if k in sessions then Some(sessions[k]) else None
    {
      tx := if k in sessions then Some(sessions[k]) else None;
    }

    method Remove(k: FlowKey)
      modifies this
      ensures sessions == old(sessions) - {k}
    {
      sessions := sessions - {k};
    }
  }

  class TunProcessor {
    const table: TcpNatTable
    var channels: map<FlowKey, seq<Channel>>

    constructor ()
      ensures fresh(table) && Abstract() == EMPTY
    {
      table := new TcpNatTable();
      channels := map[];
    }

    function Abstract(): State
      reads this, table
    {
      State(table.sessions, channels)
    }

    /** `Ok` or `Err`; the caller logs an `Err` and goes on. */
    method ProcessPacket(data: seq<byte>) returns (ok: bool)
      modifies this, table
      ensures Abstract() == match ParseDatagram(data)
                            case Some(p) => StepSegment(old(Abstract()), p)
                            case None => old(Abstract())
      ensures !ok <==> IsIpv4(data) && !(IpHeaderFits(data) && (data[9] == TCP ==> TcpHeaderFits(data[IpHeaderLen(data)..])))
    {
      if |data| < 20 {
        return true;
      }
      var version := data[0] / 16;
      if version != 4 {
        return true;
      }
      if !IpHeaderFits(data) {
        return false;
      }
      var payload := data[IpHeaderLen(data)..];
      if data[9] != TCP {
        return true;
      }
      if !TcpHeaderFits(payload) {
        return false;
      }
      HandleTcp(ReadPacket(data, payload));
      return true;
    }

    method HandleTcp(p: Packet)
      modifies this, table
      ensures Abstract() == StepSegment(old(Abstract()), p)
    {
      var k := KeyOf(p);
      if p.rst {
        table.Remove(k);
        return;
      }
      if p.syn && !p.ack {
        var open := table.Get(k);
        if open.Some? {
          return;
        }
        var tx := |ChannelsOf(channels, k)|;
        channels := channels[k := ChannelsOf(channels, k) + [Channel(p.sequence, IpV4(p.dstIp, p.dstPort), [], true)]];
        table.Insert(k, tx);
        return;
      }
      var tx := table.Get(k);
      if tx.Some? {
        if p.fin {
          channels := channels[k := Enqueue(ChannelsOf(channels, k), tx.value, [])];
          table.Remove(k);
        } else if p.payload != [] {
          channels := channels[k := Enqueue(ChannelsOf(channels, k), tx.value, p.payload)];
        }
      }
    }
  }

  // ---- What a history says about a flow -----------------------------------

  predicate Opens(e: Event, k: FlowKey) {
    e.Segment? && KeyOf(e.packet) == k && e.packet.syn && !e.packet.ack && !e.packet.rst
  }

  predicate Closes(e: Event, k: FlowKey) {
    e.Segment? && KeyOf(e.packet) == k
    && (e.packet.rst || (e.packet.fin && !(e.packet.syn && !e.packet.ack)))
  }

  /** Some segment opened the flow, and none since has closed it. */
  predicate IsOpen(h: seq<Event>, k: FlowKey) {
    exists i :: 0 <= i < |h| && Opens(h[i], k) && forall j :: i < j < |h| ==> !Closes(h[j], k)
  }

  /** The SYNs that started a session: those that found the flow closed. */
  function Openings(h: seq<Event>, k: FlowKey): (o: seq<nat>)
    ensures forall n :: 0 <= n < |o| ==> o[n] < |h| && Opens(h[o[n]], k)
  {
    if h == [] then []
    else
      var past, last := h[..|h| - 1], |h| - 1;
      if Opens(h[last], k) && !IsOpen(past, k) then Openings(past, k) + [last] else Openings(past, k)
  }

  /** What session `n` of flow `k` is sent, given the events after its SYN: payloads up to the first FIN or RST, an empty message for a FIN. */
  function Inbox(later: seq<Event>, k: FlowKey, n: nat): seq<seq<byte>> {
    if later == [] then []
    else
      var e, rest := later[0], later[1..];
      if e == SessionEnds(k, n) then []
      else if Closes(e, k) then if e.packet.rst then [] else [[]]
      else if e.Segment? && KeyOf(e.packet) == k && !Opens(e, k) && e.packet.payload != [] then
        [e.packet.payload] + Inbox(rest, k, n)
      else Inbox(rest, k, n)
  }

  predicate ClosedIn(later: seq<Event>, k: FlowKey) { exists j :: 0 <= j < |later| && Closes(later[j], k) }

  /** One more event reaches a session that nothing has ended. */
  lemma {:induction false} InboxSnoc(later: seq<Event>, e: Event, k: FlowKey, n: nat)
    ensures Inbox(later + [e], k, n) ==
            if ClosedIn(later, k) || SessionEnds(k, n) in later then Inbox(later, k, n)
            else Inbox(later, k, n) + Inbox([e], k, n)
  {
    if later == [] {
      assert later + [e] == [e];
    } else {
      var first, rest := later[0], later[1..];
      InboxSnoc(rest, e, k, n);
      assert (later + [e])[1..] == rest + [e] && (later + [e])[0] == first;
      assert ClosedIn(later, k) <==> Closes(first, k) || ClosedIn(rest, k) by {
        if ClosedIn(rest, k) {
          var j :| 0 <= j < |rest| && Closes(rest[j], k);
          assert Closes(later[j + 1], k);
        }
      }
    }
  }

  lemma IsOpenSnoc(h: seq<Event>, e: Event, k: FlowKey)
    ensures IsOpen(h + [e], k) <==> Opens(e, k) || (IsOpen(h, k) && !Closes(e, k))
  {
    var g := h + [e];
    if Opens(e, k) {
      assert Opens(g[|h|], k);
    }
    if IsOpen(h, k) && !Closes(e, k) {
      var i :| 0 <= i < |h| && Opens(h[i], k) && forall j :: i < j < |h| ==> !Closes(h[j], k);
      assert Opens(g[i], k);
    }
    if IsOpen(g, k) && !Opens(e, k) {
      var i :| 0 <= i < |g| && Opens(g[i], k) && forall j :: i < j < |g| ==> !Closes(g[j], k);
      assert Opens(h[i], k);
      assert forall j :: i < j < |h| ==> h[j] == g[j];
      assert g[|h|] == e;
    }
  }

  // ---- Refinement ---------------------------------------------------------

  /** Channel `n` holds what the history since its opening SYN says. */
  ghost predicate Matches(c: Channel, later: seq<Event>, k: FlowKey, n: nat) {
    c.queue == Inbox(later, k, n) && (c.listening <==> SessionEnds(k, n) !in later)
  }

  /** Session `n` of flow `k` was started by the SYN at `at`, with that SYN's number and destination, and holds what came after it. */
  ghost predicate IsSession(c: Channel, h: seq<Event>, at: nat, k: FlowKey, n: nat) {
    at < |h| && Opens(h[at], k) && c.clientSeq == h[at].packet.sequence
    && c.target == IpV4(h[at].packet.dstIp, h[at].packet.dstPort) && Matches(c, h[at + 1..], k, n)
  }

  /** Session `n` is what the history makes it, and the one in the table is the one nothing has closed. */
  ghost predicate SessionMatches(s: State, h: seq<Event>, k: FlowKey, n: nat)
    requires n < |Openings(h, k)|
  {
    var o, chs := Openings(h, k), ChannelsOf(s.channels, k);
    && n < |chs| && IsSession(chs[n], h, o[n], k, n)
    && (ClosedIn(h[o[n] + 1..], k) <==> !(k in s.sessions && n == s.sessions[k]))
  }

  ghost predicate SessionsMatch(s: State, h: seq<Event>, k: FlowKey) {
    forall n :: 0 <= n < |Openings(h, k)| ==> SessionMatches(s, h, k, n)
  }

  ghost predicate Refines(s: State, h: seq<Event>, k: FlowKey) {
    && |ChannelsOf(s.channels, k)| == |Openings(h, k)|
    && (k in s.sessions <==> IsOpen(h, k))
    && (k in s.sessions ==> s.sessions[k] + 1 == |Openings(h, k)|)
    && SessionsMatch(s, h, k)
  }

  lemma ClosedInSnoc(later: seq<Event>, e: Event, k: FlowKey)
    ensures ClosedIn(later + [e], k) <==> ClosedIn(later, k) || Closes(e, k)
  {
    var g := later + [e];
    if ClosedIn(later, k) {
      var j :| 0 <= j < |later| && Closes(later[j], k);
      assert Closes(g[j], k);
    }
    if Closes(e, k) {
      assert Closes(g[|later|], k);
    }
  }

  lemma ChannelFollows(c: Channel, c': Channel, later: seq<Event>, e: Event, k: FlowKey, n: nat, current: bool)
    requires Matches(c, later, k, n)
    requires ClosedIn(later, k) <==> !current
    requires c'.listening == (c.listening && e != SessionEnds(k, n))
    requires c'.queue == if current && c.listening then c.queue + Inbox([e], k, n) else c.queue
    ensures Matches(c', later + [e], k, n)
  {
    InboxSnoc(later, e, k, n);
  }

  /** What one event does to one channel of its flow. */
  function Follow(c: Channel, e: Event, k: FlowKey, n: nat, current: bool): Channel {
    Channel(c.clientSeq, c.target,
            if current && c.listening then c.queue + Inbox([e], k, n) else c.queue,
            c.listening && e != SessionEnds(k, n))
  }

  lemma OneInbox(e: Event, k: FlowKey, n: nat)
    ensures Inbox([e], k, n) ==
            if e.SessionEnds? || KeyOf(e.packet) != k then []
            else if Closes(e, k) then if e.packet.rst then [] else [[]]
            else if !Opens(e, k) && e.packet.payload != [] then [e.packet.payload] else []
  {
    assert [e][1..] == [];
  }

  lemma EventOnChannels(s: State, e: Event, k: FlowKey, n: nat)
    requires k in s.sessions ==> s.sessions[k] + 1 == |ChannelsOf(s.channels, k)|
    requires n < |ChannelsOf(s.channels, k)|
    ensures var chs, chs' := ChannelsOf(s.channels, k), ChannelsOf(StepEvent(s, e).channels, k);
            n < |chs'| && chs'[n] == Follow(chs[n], e, k, n, k in s.sessions && n == s.sessions[k])
  {
    OneInbox(e, k, n);
  }

  lemma EventOnTable(s: State, e: Event, k: FlowKey)
    requires k in s.sessions ==> s.sessions[k] + 1 == |ChannelsOf(s.channels, k)|
    ensures var chs, chs' := ChannelsOf(s.channels, k), ChannelsOf(StepEvent(s, e).channels, k);
            if Opens(e, k) && k !in s.sessions then |chs'| == |chs| + 1 && chs'[|chs|] == NewSession(e.packet)
            else |chs'| == |chs|
    ensures var t := StepEvent(s, e).sessions;
            && (k in t <==> Opens(e, k) || (k in s.sessions && !Closes(e, k)))
            && (k in t ==> t[k] == if k in s.sessions then s.sessions[k] else |ChannelsOf(s.channels, k)|)
  {}

  lemma OpeningsSnoc(h: seq<Event>, e: Event, k: FlowKey)
    ensures Openings(h + [e], k) ==
            if Opens(e, k) && !IsOpen(h, k) then Openings(h, k) + [|h|] else Openings(h, k)
  {
    assert (h + [e])[..|h|] == h;
  }

  /** One old channel of the flow, one more event. */
  lemma ChannelStillMatches(s: State, h: seq<Event>, e: Event, k: FlowKey, n: nat)
    requires Refines(s, h, k) && n < |Openings(h, k)|
    ensures var at := Openings(h, k)[n];
            var c := ChannelsOf(s.channels, k)[n];
            var current := k in s.sessions && n == s.sessions[k];
            && IsSession(Follow(c, e, k, n, current), h + [e], at, k, n)
            && (ClosedIn((h + [e])[at + 1..], k) <==> !(current && !Closes(e, k)))
  {
    hide Inbox, Openings, IsOpen;
    assert SessionMatches(s, h, k, n);
    var at := Openings(h, k)[n];
    var later := h[at + 1..];
    var c, current := ChannelsOf(s.channels, k)[n], k in s.sessions && n == s.sessions[k];
    assert (h + [e])[at + 1..] == later + [e];
    ChannelFollows(c, Follow(c, e, k, n, current), later, e, k, n, current);
    ClosedInSnoc(later, e, k);
  }

  lemma StepRefines(s: State, h: seq<Event>, e: Event, k: FlowKey)
    requires Refines(s, h, k)
    ensures Refines(StepEvent(s, e), h + [e], k)
  {
    SessionsStillMatch(s, h, e, k);
    hide Openings, IsOpen, StepEvent, Closes, ChannelsOf, NewSession, Opens, SessionsMatch, SessionMatches;
    OpeningsSnoc(h, e, k);
    IsOpenSnoc(h, e, k);
    EventOnTable(s, e, k);
    assert |Openings(h + [e], k)| == |Openings(h, k)| + if Opens(e, k) && !IsOpen(h, k) then 1 else 0;
  }

  /** Old sessions and a new one, if the event opens it. */
  lemma SessionsStillMatch(s: State, h: seq<Event>, e: Event, k: FlowKey)
    requires Refines(s, h, k)
    ensures SessionsMatch(StepEvent(s, e), h + [e], k)
  {
    hide Inbox, IsOpen, StepEvent, ClosedIn, Follow, IsSession, Closes, NewSession, Opens, Refines, Openings, ChannelsOf;
    var g, t := h + [e], StepEvent(s, e);
    forall n | 0 <= n < |Openings(g, k)|
      ensures SessionMatches(t, g, k, n)
    {
      OneSessionMatches(s, h, e, k, n);
    }
  }

  lemma OneSessionMatches(s: State, h: seq<Event>, e: Event, k: FlowKey, n: nat)
    requires Refines(s, h, k) && n < |Openings(h + [e], k)|
    ensures SessionMatches(StepEvent(s, e), h + [e], k, n)
  {
    hide Inbox, IsOpen, StepEvent, ClosedIn, Follow, IsSession, Closes, NewSession, Opens, Openings, ChannelsOf, SessionsMatch;
    OpeningsSnoc(h, e, k);
    IsOpenSnoc(h, e, k);
    EventOnTable(s, e, k);
    if n < |Openings(h, k)| {
      EventOnChannels(s, e, k, n);
      ChannelStillMatches(s, h, e, k, n);
      if Opens(e, k) {
        OpensNeverCloses(e, k);
      }
    } else {
      NewChannelMatches(h, e, k, n);
    }
  }

  lemma OpensNeverCloses(e: Event, k: FlowKey)
    requires Opens(e, k)
    ensures !Closes(e, k)
  {}

  lemma NewChannelMatches(h: seq<Event>, e: Event, k: FlowKey, n: nat)
    requires Opens(e, k)
    ensures IsSession(NewSession(e.packet), h + [e], |h|, k, n) && !ClosedIn((h + [e])[|h| + 1..], k)
  {}

  lemma EmptyRefines(k: FlowKey)
    ensures Refines(EMPTY, [], k)
  {}

  /** After any history: the table holds exactly the open flows, and every channel ever created matches its part of the history. */
  lemma {:induction false} RunRefinesHistory(h: seq<Event>, k: FlowKey)
    ensures Refines(Run(h), h, k)
  {
    hide Refines, StepEvent;
    if h == [] {
      EmptyRefines(k);
    } else {
      var past, e := h[..|h| - 1], h[|h| - 1];
      RunRefinesHistory(past, k);
      StepRefines(Run(past), past, e, k);
      assert past + [e] == h;
    }
  }

  // ---- Flows do not interfere ----------------------------------------------

  /** All that flow `k` can see of the NAT. */
  function View(s: State, k: FlowKey): (Option<nat>, seq<Channel>) {
    (if k in s.sessions then Some(s.sessions[k]) else None, ChannelsOf(s.channels, k))
  }

  function Filter(h: seq<Event>, k: FlowKey): seq<Event> {
    if h == [] then []
    else
      var past, e := Filter(h[..|h| - 1], k), h[|h| - 1];
      if EventKey(e) == k then past + [e] else past
  }

  lemma OtherFlowsUntouched(s: State, e: Event, k: FlowKey)
    requires EventKey(e) != k
    ensures View(StepEvent(s, e), k) == View(s, k)
  {}

  lemma ViewDecidesStep(s: State, t: State, e: Event)
    requires View(s, EventKey(e)) == View(t, EventKey(e))
    ensures View(StepEvent(s, e), EventKey(e)) == View(StepEvent(t, e), EventKey(e))
  {}

  /** A flow sees the same sessions and messages whatever other flows do in between. */
  lemma {:induction false} FlowsDoNotInterfere(h: seq<Event>, k: FlowKey)
    ensures View(Run(h), k) == View(Run(Filter(h, k)), k)
  {
    hide StepEvent, View;
    if h != [] {
      var past, e := h[..|h| - 1], h[|h| - 1];
      FlowsDoNotInterfere(past, k);
      if EventKey(e) == k {
        var f := Filter(past, k);
        assert (f + [e])[..|f|] == f;
        ViewDecidesStep(Run(past), Run(f), e);
      } else {
        OtherFlowsUntouched(Run(past), e, k);
      }
    }
  }

  // ---- A session that ended by itself still holds its flow ------------------

  /** Until a FIN or RST arrives, its entry stays, new SYNs open nothing, and what is sent is lost. */
  lemma {:induction false} EndedSessionHoldsItsFlow(s: State, later: seq<Event>, k: FlowKey)
    requires k in s.sessions && s.sessions[k] + 1 == |ChannelsOf(s.channels, k)|
    requires !ChannelsOf(s.channels, k)[s.sessions[k]].listening
    requires !ClosedIn(later, k)
    ensures var t, n := RunFrom(s, later), s.sessions[k];
            && k in t.sessions && t.sessions[k] == n
            && |ChannelsOf(t.channels, k)| == n + 1
            && ChannelsOf(t.channels, k)[n] == ChannelsOf(s.channels, k)[n]
    decreases |later|
  {
    hide StepEvent, Inbox;
    if later != [] {
      assert !Closes(later[0], k);
      EventOnTable(s, later[0], k);
      EventOnChannels(s, later[0], k, s.sessions[k]);
      EndedSessionHoldsItsFlow(StepEvent(s, later[0]), later[1..], k);
    }
  }

  function RunFrom(s: State, events: seq<Event>): State
    decreases |events|
  {
    if events == [] then s else RunFrom(StepEvent(s, events[0]), events[1..])
  }
}
