/** The userspace TCP endpoint of one flow (ghost-tun/src/tcp_session.rs): 32-bit sequence numbers over a long stream. */
module TcpSession {
  import opened Bytes
  import opened Streams
  import Nat

  const READ_MAX := 8192

  /** The number after the SYN-ACK's. */
  const FIRST_DATA: u32 := 1

  /** The fields `send_tcp_packet` decides; header layout and checksums are not modelled. */
  datatype Segment = Segment(
    flow: Nat.FlowKey, sequence: u32, acknowledgment: u32,
    rst: bool, syn: bool, ack: bool, fin: bool, psh: bool, payload: seq<byte>)

  function SynAck(k: Nat.FlowKey, clientSeq: u32): Segment {
    Segment(Nat.Reverse(k), 0, WrappingAdd(clientSeq, 1), false, true, true, false, false, [])
  }

  function ConnectFailed(k: Nat.FlowKey, clientSeq: u32): Segment {
    Segment(Nat.Reverse(k), 0, WrappingAdd(clientSeq, 1), true, false, true, false, false, [])
  }

  function Data(k: Nat.FlowKey, clientSeq: u32, sequence: u32, chunk: seq<byte>): Segment {
    Segment(Nat.Reverse(k), sequence, WrappingAdd(clientSeq, 1), false, false, true, false, true, chunk)
  }

  function FinAck(k: Nat.FlowKey, clientSeq: u32, sequence: u32): Segment {
    Segment(Nat.Reverse(k), sequence, WrappingAdd(clientSeq, 1), false, false, true, true, false, [])
  }

  /** The sequence number of stream offset `n`: the SYN takes number 0. */
  function SeqAt(n: nat): u32 { (1 + n) % WORD }

  /** The data segments that carry `chunks`, the first at stream offset `offset`. */
  function DataSegments(k: Nat.FlowKey, clientSeq: u32, chunks: seq<seq<byte>>, offset: nat): seq<Segment> {
    if chunks == [] then []
    else [Data(k, clientSeq, SeqAt(offset), chunks[0])]
         + DataSegments(k, clientSeq, chunks[1..], offset + |chunks[0]|)
  }

  /** Everything a session that reaches its target emits. */
  function Emitted(k: Nat.FlowKey, clientSeq: u32, chunks: seq<seq<byte>>): seq<Segment> {
    [SynAck(k, clientSeq)] + DataSegments(k, clientSeq, chunks, 0)
    + [FinAck(k, clientSeq, SeqAt(|Concat(chunks)|))]
  }

  /** The channel to the TUN writer; sends fail once the writer has gone. */
  class TunChannel {
    var packets: seq<Segment>
    const capacity: Option<nat>

    constructor (capacity: Option<nat>)
      ensures packets == [] && this.capacity == capacity
    {
      this.capacity := capacity;
      packets := [];
    }

    ghost predicate Valid()
      reads this
    {
      capacity.Some? ==> |packets| <= capacity.value
    }

    function Clip(s: seq<Segment>): seq<Segment> {
      if capacity.Some? && capacity.value < |s| then s[..capacity.value] else s
    }

    method Send(p: Segment) returns (ok: bool)
      requires Valid()
      modifies this
      ensures Valid() && packets == Clip(old(packets) + [p])
      ensures ok <==> capacity.None? || |old(packets)| < capacity.value
    {
      ok := capacity.None? || |packets| < capacity.value;
      if ok {
        packets := packets + [p];
      }
    }
  }

  /** `run_tcp_session` up to and including the task that reads from SOCKS5; `None` is a failed CONNECT. */
  method RunToTun(k: Nat.FlowKey, clientSeq: u32, tun: TunChannel, socks: Option<ReadHalf>)
    requires tun.Valid()
    modifies tun
    modifies if socks.Some? then {socks.value} else {}
    ensures tun.Valid()
    ensures socks.None? ==> tun.packets == tun.Clip(old(tun.packets) + [ConnectFailed(k, clientSeq)])
    ensures socks.Some? ==>
              tun.packets == tun.Clip(old(tun.packets) + Emitted(k, clientSeq, Chunks(old(socks.value.segments), READ_MAX)))
  {
    hide Chunks, Concat, DataSegments, WrappingAdd, SeqAt, FinAck, SynAck, ConnectFailed;
    if socks.None? {
      var _ := tun.Send(ConnectFailed(k, clientSeq));
      return;
    }
    ghost var start := tun.packets;
    ghost var chunks := Chunks(socks.value.segments, READ_MAX);
    var ok := tun.Send(SynAck(k, clientSeq));
    ghost var later := DataSegments(k, clientSeq, chunks, 0) + [FinAck(k, clientSeq, SeqAt(|Concat(chunks)|))];
    assert start + Emitted(k, clientSeq, chunks) == start + [SynAck(k, clientSeq)] + later;
    if !ok {
      return;
    }
    SocksToTun(k, clientSeq, tun, socks.value);
  }

  /** What the loop has still to emit, with the final segment. */
  function Remaining(k: Nat.FlowKey, clientSeq: u32, chunks: seq<seq<byte>>, offset: nat, fin: Segment): seq<Segment> {
    DataSegments(k, clientSeq, chunks, offset) + [fin]
  }

  method SocksToTun(k: Nat.FlowKey, clientSeq: u32, tun: TunChannel, socks: ReadHalf)
    requires tun.Valid()
    modifies tun, socks
    ensures tun.Valid()
    ensures var chunks := Chunks(old(socks.segments), READ_MAX);
            var fin := FinAck(k, clientSeq, SeqAt(|Concat(chunks)|));
            tun.packets == tun.Clip(old(tun.packets) + Remaining(k, clientSeq, chunks, 0, fin))
  {
    hide Chunks, Concat, Remaining, WrappingAdd, SeqAt, FinAck;
    ghost var all := Chunks(socks.segments, READ_MAX);
    ghost var fin := FinAck(k, clientSeq, SeqAt(|Concat(all)|));
    ghost var whole := tun.packets + Remaining(k, clientSeq, all, 0, fin);
    var buf := new byte[READ_MAX];
    var next: u32 := FIRST_DATA;
    ghost var offset: nat := 0;
    SeqStart();
    while true
      invariant tun.Valid() && next == SeqAt(offset)
      invariant offset + |Concat(Chunks(socks.segments, READ_MAX))| == |Concat(all)|
      invariant whole == tun.packets + Remaining(k, clientSeq, Chunks(socks.segments, READ_MAX), offset, fin)
      decreases |socks.Pending()|
    {
      var n := SocksTurn(k, clientSeq, tun, socks, buf, next, offset, fin);
      if n == 0 {
        break;
      }
      next := WrappingAdd(next, n);
      offset := offset + n;
    }
    var _ := tun.Send(FinAck(k, clientSeq, next));
  }

  ghost predicate Full(tun: TunChannel)
    reads tun
  {
    tun.capacity == Some(|tun.packets|)
  }

  /** Either nothing more fits, or only the FIN is left. */
  lemma FinishStream(tun: TunChannel, rest: seq<Segment>, fin: seq<Segment>)
    requires tun.Valid() && |fin| == 1 && (Full(tun) || rest == [])
    ensures tun.Clip(tun.packets + (rest + fin)) == tun.Clip(tun.packets + fin)
  {}

  /** One turn of the loop; 0 ends it, at the end of the source or because the writer has gone. */
  method SocksTurn(k: Nat.FlowKey, clientSeq: u32, tun: TunChannel, socks: ReadHalf, buf: array<byte>,
                   next: u32, ghost offset: nat, ghost fin: Segment)
    returns (n: nat)
    requires tun.Valid() && buf.Length == READ_MAX && next == SeqAt(offset)
    modifies tun, socks, buf
    ensures tun.Valid() && n <= READ_MAX
    ensures var was, now := Chunks(old(socks.segments), READ_MAX), Chunks(socks.segments, READ_MAX);
            if n == 0 then
              && tun.packets == old(tun.packets)
              && tun.Clip(tun.packets + Remaining(k, clientSeq, was, offset, fin)) == tun.Clip(tun.packets + [fin])
              && (Full(tun) || Concat(was) == [])
            else
              && tun.packets + Remaining(k, clientSeq, now, offset + n, fin)
                 == old(tun.packets) + Remaining(k, clientSeq, was, offset, fin)
              && |Concat(was)| == n + |Concat(now)|
              && |socks.Pending()| < |old(socks.Pending())|
              && WrappingAdd(next, n) == SeqAt(offset + n)
  {
    hide Chunks, Concat, DataSegments, WrappingAdd, SeqAt, Data;
    ghost var was := DataSegments(k, clientSeq, Chunks(socks.segments, READ_MAX), offset);
    var r := socks.Read(buf, 0, READ_MAX);
    if r.Ended? {
      NoMoreSegments(k, clientSeq, offset);
      FinishStream(tun, was, [fin]);
      return 0;
    }
    var chunk := buf[..r.n];
    assert buf[0..0 + r.n] == chunk;
    NextSegment(k, clientSeq, chunk, Chunks(socks.segments, READ_MAX), offset);
    SeqAdvances(offset, r.n);
    ghost var sent, later := Data(k, clientSeq, next, chunk), DataSegments(k, clientSeq, Chunks(socks.segments, READ_MAX), offset + r.n);
    var ok := tun.Send(Data(k, clientSeq, next, chunk));
    if !ok {
      FinishStream(tun, was, [fin]);
      return 0;
    }
    assert old(tun.packets) + ([sent] + later + [fin]) == old(tun.packets) + [sent] + (later + [fin]);
    return r.n;
  }

  lemma NoMoreSegments(k: Nat.FlowKey, clientSeq: u32, offset: nat)
    ensures DataSegments(k, clientSeq, [], offset) == [] && Concat([]) == []
  {}

  lemma NextSegment(k: Nat.FlowKey, clientSeq: u32, chunk: seq<byte>, later: seq<seq<byte>>, offset: nat)
    ensures DataSegments(k, clientSeq, [chunk] + later, offset) ==
            [Data(k, clientSeq, SeqAt(offset), chunk)] + DataSegments(k, clientSeq, later, offset + |chunk|)
    ensures |Concat([chunk] + later)| == |chunk| + |Concat(later)|
  {
    assert ([chunk] + later)[1..] == later;
  }

  lemma SeqStart()
    ensures SeqAt(0) == FIRST_DATA
  {}

  lemma SeqAdvances(offset: nat, n: nat)
    requires n < WORD
    ensures WrappingAdd(SeqAt(offset), n) == SeqAt(offset + n)
  {}

  /** The task that writes what the NAT queued to SOCKS5; the empty FIN marker is skipped. */
  method ChannelToSocks(queue: seq<seq<byte>>, socks: WriteHalf) returns (ok: bool)
    requires socks.Valid()
    modifies socks
    ensures socks.Valid()
    ensures socks.written == socks.Clip(old(socks.written) + Concat(queue))
    ensures ok <==> socks.Fits(old(socks.written) + Concat(queue))
  {
    ghost var start := socks.written;
    assert start + [] == start;
    for i := 0 to |queue|
      invariant socks.Valid() && socks.Fits(socks.written)
      invariant socks.written == start + Concat(queue[..i])
    {
      assert queue[..i + 1] == queue[..i] + [queue[i]];
      ConcatSnoc(queue[..i], queue[i]);
      assert start + Concat(queue[..i]) + queue[i] == start + Concat(queue[..i + 1]);
      if queue[i] != [] {
        var sent := socks.WriteAll(queue[i]);
        if !sent {
          assert queue == queue[..i + 1] + queue[i + 1..];
          ConcatAppend(queue[..i + 1], queue[i + 1..]);
          assert start + Concat(queue) == (start + Concat(queue[..i + 1])) + Concat(queue[i + 1..]);
          return false;
        }
      }
    }
    assert queue[..|queue|] == queue;
    return true;
  }

  /** The bytes of a flow's data segments, up to the FIN or RST that closes it. */
  function FlowBytes(later: seq<Nat.Event>, k: Nat.FlowKey, n: nat): seq<byte> {
    if later == [] || later[0] == Nat.SessionEnds(k, n) || Nat.Closes(later[0], k) then []
    else if later[0].Segment? && Nat.KeyOf(later[0].packet) == k && !Nat.Opens(later[0], k) then
      later[0].packet.payload + FlowBytes(later[1..], k, n)
    else FlowBytes(later[1..], k, n)
  }

  lemma {:induction false} InboxBytes(later: seq<Nat.Event>, k: Nat.FlowKey, n: nat)
    ensures Concat(Nat.Inbox(later, k, n)) == FlowBytes(later, k, n)
  {
    if later != [] {
      var rest := Nat.Inbox(later[1..], k, n);
      InboxBytes(later[1..], k, n);
      if Nat.Closes(later[0], k) {
        assert Concat([[]]) == [] + Concat([]);
      } else if later[0].Segment? {
        assert ([later[0].packet.payload] + rest)[1..] == rest;
        assert [] + FlowBytes(later[1..], k, n) == FlowBytes(later[1..], k, n);
      }
    }
  }

  /** What session `n` of a flow has to write to SOCKS5 after any history: its segments' payloads, in order. */
  lemma UplinkCarriesTheFlow(h: seq<Nat.Event>, k: Nat.FlowKey, n: nat)
    requires n < |Nat.Openings(h, k)|
    ensures var channels := Nat.ChannelsOf(Nat.Run(h).channels, k);
            n < |channels| && Concat(channels[n].queue) == FlowBytes(h[Nat.Openings(h, k)[n] + 1..], k, n)
  {
    hide Nat.Inbox, Nat.Openings, Nat.IsOpen, Nat.Run, Nat.ClosedIn, Concat, FlowBytes;
    Nat.RunRefinesHistory(h, k);
    assert Nat.SessionMatches(Nat.Run(h), h, k, n);
    InboxBytes(h[Nat.Openings(h, k)[n] + 1..], k, n);
  }

  // ---- Tiling --------------------------------------------------------------

  /** Bytes of the stream before chunk `i`. */
  function Offset(chunks: seq<seq<byte>>, i: nat): nat
    requires i <= |chunks|
  {
    |Concat(chunks[..i])|
  }

  lemma OffsetNext(chunks: seq<seq<byte>>, i: nat)
    requires i < |chunks|
    ensures Concat(chunks[..i + 1]) == Concat(chunks[..i]) + chunks[i]
    ensures Offset(chunks, i + 1) == Offset(chunks, i) + |chunks[i]|
  {
    assert chunks[..i + 1] == chunks[..i] + [chunks[i]];
    ConcatSnoc(chunks[..i], chunks[i]);
  }

  /** Segment `i` carries chunk `i`, from the flow's destination back to its source, with ACK and PSH and the number of its place in the stream. */
  lemma {:induction false} SegmentsTileTheStream(k: Nat.FlowKey, clientSeq: u32, chunks: seq<seq<byte>>, offset: nat, i: nat)
    requires i < |chunks|
    ensures var segments := DataSegments(k, clientSeq, chunks, offset);
            && |segments| == |chunks|
            && segments[i] == Data(k, clientSeq, SeqAt(offset + Offset(chunks, i)), chunks[i])
            && segments[i] == Segment(Nat.FlowKey(k.dstIp, k.dstPort, k.srcIp, k.srcPort),
                                      (1 + offset + Offset(chunks, i)) % 0x1_0000_0000, (clientSeq + 1) % 0x1_0000_0000,
                                      false, false, true, false, true, chunks[i])
  {
    if i == 0 {
      if |chunks| > 1 {
        SegmentsTileTheStream(k, clientSeq, chunks[1..], offset + |chunks[0]|, 0);
      }
    } else {
      SegmentsTileTheStream(k, clientSeq, chunks[1..], offset + |chunks[0]|, i - 1);
      assert chunks[..i][1..] == chunks[1..][..i - 1];
    }
  }

  /** The segments around the data, field by field: from the flow's destination back to its source, acknowledging the SYN. */
  lemma EmittedLayout(k: Nat.FlowKey, clientSeq: u32, chunks: seq<seq<byte>>)
    ensures var back, ack := Nat.FlowKey(k.dstIp, k.dstPort, k.srcIp, k.srcPort), (clientSeq + 1) % 0x1_0000_0000;
            var e := Emitted(k, clientSeq, chunks);
            && |e| == |chunks| + 2
            && e[0] == Segment(back, 0, ack, false, true, true, false, false, [])
            && e[1..|e| - 1] == DataSegments(k, clientSeq, chunks, 0)
            && e[|e| - 1] == Segment(back, (1 + |Concat(chunks)|) % 0x1_0000_0000, ack, false, false, true, true, false, [])
            && ConnectFailed(k, clientSeq) == Segment(back, 0, ack, true, false, true, false, false, [])
  {
    hide DataSegments, Concat;
    SegmentsCounted(k, clientSeq, chunks, 0);
  }

  lemma {:induction false} SegmentsCounted(k: Nat.FlowKey, clientSeq: u32, chunks: seq<seq<byte>>, offset: nat)
    ensures |DataSegments(k, clientSeq, chunks, offset)| == |chunks|
    decreases |chunks|
  {
    if chunks != [] {
      SegmentsCounted(k, clientSeq, chunks[1..], offset + |chunks[0]|);
    }
  }

  /** A segment carries as much of the 8192-byte buffer as the bytes at hand fill. */
  lemma SegmentsFillTheBuffer(first: seq<byte>, segments: seq<seq<byte>>)
    requires first != []
    ensures var chunks := Chunks([first] + segments, READ_MAX);
            chunks != [] && chunks[0] == first[..if |first| <= 8192 then |first| else 8192]
  {}

  // ---- The application's TCP (section 3.10.7 of RFC 9293) --------------------

  datatype PeerState = SynSent | Established | RemoteClosed | Refused

  /** An endpoint that has sent its SYN with number `iss`, and since then `sent` bytes. */
  datatype Peer = Peer(
    localIp: u32, localPort: u16, remoteIp: u32, remotePort: u16, iss: u32, sent: nat,
    state: PeerState, next: u32, data: seq<byte>)

  /** The application behind flow `k`. */
  function Caller(k: Nat.FlowKey, iss: u32, sent: nat): Peer {
    Peer(k.srcIp, k.srcPort, k.dstIp, k.dstPort, iss, sent, SynSent, 0, [])
  }

  predicate IsFor(p: Peer, s: Segment) {
    && s.flow.srcIp == p.remoteIp && s.flow.srcPort == p.remotePort
    && s.flow.dstIp == p.localIp && s.flow.dstPort == p.localPort
  }

  /** In SYN-SENT only the SYN can be acknowledged; later any byte sent. */
  predicate AcceptableAck(p: Peer, s: Segment) {
    s.ack && (s.acknowledgment - (p.iss + 1)) % 0x1_0000_0000 <= if p.state.SynSent? then 0 else p.sent
  }

  /** A segment for somebody else, with a bad acknowledgment or out of order changes nothing. */
  function PeerStep(p: Peer, s: Segment): Peer {
    if !IsFor(p, s) || !AcceptableAck(p, s) then p
    else
      match p.state
      case SynSent =>
        if s.rst then p.(state := Refused)
        else if s.syn then p.(state := Established, next := (s.sequence + 1) % 0x1_0000_0000)
        else p
      case Established =>
        if s.sequence != p.next || s.syn then p
        else if s.rst then p.(state := Refused)
        else
          p.(state := if s.fin then RemoteClosed else Established,
             next := (s.sequence + |s.payload| + if s.fin then 1 else 0) % 0x1_0000_0000,
             data := p.data + s.payload)
      case RemoteClosed => p
      case Refused => p
  }

  function PeerRun(p: Peer, segments: seq<Segment>): Peer
    decreases |segments|
  {
    if segments == [] then p else PeerRun(PeerStep(p, segments[0]), segments[1..])
  }

  /** `p` is the application that opened flow `k` with this number. */
  predicate Opened(p: Peer, k: Nat.FlowKey, iss: u32) {
    && p.localIp == k.srcIp && p.localPort == k.srcPort && p.remoteIp == k.dstIp && p.remotePort == k.dstPort
    && p.iss == iss
  }

  lemma AckAcceptable(k: Nat.FlowKey, clientSeq: u32, p: Peer, s: Segment)
    requires Opened(p, k, clientSeq)
    requires s.flow == Nat.Reverse(k) && s.ack && s.acknowledgment == WrappingAdd(clientSeq, 1)
    ensures IsFor(p, s) && AcceptableAck(p, s)
  {}

  /** The application has the first bytes of the stream and expects the next. */
  predicate Has(p: Peer, data: seq<byte>) {
    p.state.Established? && p.next == SeqAt(|data|) && p.data == data
  }

  lemma NextAccepted(k: Nat.FlowKey, clientSeq: u32, p: Peer, data: seq<byte>, chunk: seq<byte>)
    requires Opened(p, k, clientSeq) && Has(p, data)
    ensures var q := PeerStep(p, Data(k, clientSeq, SeqAt(|data|), chunk));
            Opened(q, k, clientSeq) && Has(q, data + chunk)
  {
    AckAcceptable(k, clientSeq, p, Data(k, clientSeq, SeqAt(|data|), chunk));
    hide AcceptableAck, IsFor;
    assert (SeqAt(|data|) + |chunk|) % WORD == SeqAt(|data| + |chunk|);
  }

  lemma FinAccepted(k: Nat.FlowKey, clientSeq: u32, p: Peer, data: seq<byte>)
    requires Opened(p, k, clientSeq) && Has(p, data)
    ensures var q := PeerStep(p, FinAck(k, clientSeq, SeqAt(|data|)));
            Opened(q, k, clientSeq) && q.state.RemoteClosed? && q.data == data
  {
    AckAcceptable(k, clientSeq, p, FinAck(k, clientSeq, SeqAt(|data|)));
    hide AcceptableAck, IsFor;
    assert data + [] == data;
  }

  lemma {:induction false} PeerTakesTheRest(k: Nat.FlowKey, clientSeq: u32, p: Peer, data: seq<byte>, chunks: seq<seq<byte>>)
    requires Opened(p, k, clientSeq) && Has(p, data)
    ensures var fin := FinAck(k, clientSeq, SeqAt(|data| + |Concat(chunks)|));
            var q := PeerRun(p, DataSegments(k, clientSeq, chunks, |data|) + [fin]);
            q.data == data + Concat(chunks) && q.state.RemoteClosed?
    decreases |chunks|
  {
    hide PeerStep, Opened, Has;
    var fin := FinAck(k, clientSeq, SeqAt(|data| + |Concat(chunks)|));
    var segments := DataSegments(k, clientSeq, chunks, |data|) + [fin];
    if chunks == [] {
      assert segments == [fin] && [fin][1..] == [];
      assert PeerRun(p, [fin]) == PeerRun(PeerStep(p, fin), []);
      FinAccepted(k, clientSeq, p, data);
      assert data + [] == data;
    } else {
      NextAccepted(k, clientSeq, p, data, chunks[0]);
      var q := PeerStep(p, Data(k, clientSeq, SeqAt(|data|), chunks[0]));
      assert segments[1..] == DataSegments(k, clientSeq, chunks[1..], |data| + |chunks[0]|) + [fin];
      PeerTakesTheRest(k, clientSeq, q, data + chunks[0], chunks[1..]);
      assert data + chunks[0] + Concat(chunks[1..]) == data + (chunks[0] + Concat(chunks[1..]));
    }
  }

  /** The SYN-ACK opens the connection of the application it answers, and of no other. */
  lemma HandshakeAnswersTheSyn(k: Nat.FlowKey, clientSeq: u32, p: Peer)
    requires p.state.SynSent?
    ensures PeerStep(p, SynAck(k, clientSeq)) ==
            if Opened(p, k, clientSeq) then p.(state := Established, next := SeqAt(0)) else p
    ensures PeerStep(p, ConnectFailed(k, clientSeq)) == if Opened(p, k, clientSeq) then p.(state := Refused) else p
  {
    var x: int, y: int := clientSeq, p.iss;
    assert (x + 1) % WORD == (y + 1) % WORD ==> x == y;
    assert ((x + 1) % WORD - (y + 1)) % WORD == (x - y) % WORD;
  }

  /** For a stream of any length, the segments in order give the application that sent the SYN exactly the stream, then its end; if the target could not be reached, that application is refused. */
  lemma PeerRebuildsTheStream(k: Nat.FlowKey, clientSeq: u32, sent: nat, chunks: seq<seq<byte>>)
    ensures var p := PeerRun(Caller(k, clientSeq, sent), Emitted(k, clientSeq, chunks));
            p.data == Concat(chunks) && p.state.RemoteClosed?
    ensures PeerRun(Caller(k, clientSeq, sent), [ConnectFailed(k, clientSeq)]).state.Refused?
  {
    hide PeerStep;
    var p := Caller(k, clientSeq, sent);
    HandshakeAnswersTheSyn(k, clientSeq, p);
    var later := DataSegments(k, clientSeq, chunks, 0) + [FinAck(k, clientSeq, SeqAt(|Concat(chunks)|))];
    assert Emitted(k, clientSeq, chunks) == [SynAck(k, clientSeq)] + later;
    assert Emitted(k, clientSeq, chunks)[1..] == later;
    PeerTakesTheRest(k, clientSeq, PeerStep(p, SynAck(k, clientSeq)), [], chunks);
    var refusal := [ConnectFailed(k, clientSeq)];
    assert refusal[1..] == [];
    assert PeerRun(p, refusal) == PeerRun(PeerStep(p, refusal[0]), []);
  }

  /** The application that sent this SYN, by the bytes of the packet. */
  function Sender(p: Nat.Packet, sent: nat): Peer {
    Peer(Word(p.srcIp), p.srcPort, Word(p.dstIp), p.dstPort, p.sequence, sent, SynSent, 0, [])
  }

  /** Four bytes, the highest first. */
  function Word(o: seq<byte>): u32
    requires |o| == 4
  {
    0x100_0000 * (o[0] as int) + 0x1_0000 * (o[1] as int) + 0x100 * (o[2] as int) + o[3]
  }

  lemma SenderIsCaller(p: Nat.Packet, sent: nat)
    ensures Sender(p, sent) == Caller(Nat.KeyOf(p), p.sequence, sent)
  {}

  /** So whatever the history, each session's segments are the answer to the SYN that opened it. */
  lemma SessionAnswersItsSyn(h: seq<Nat.Event>, k: Nat.FlowKey, n: nat, sent: nat, chunks: seq<seq<byte>>)
    requires n < |Nat.Openings(h, k)|
    ensures var channels, opening := Nat.ChannelsOf(Nat.Run(h).channels, k), h[Nat.Openings(h, k)[n]];
            && n < |channels| && opening.Segment? && opening.packet.syn && !opening.packet.ack
            && var p := PeerRun(Sender(opening.packet, sent), Emitted(k, channels[n].clientSeq, chunks));
            p.data == Concat(chunks) && p.state.RemoteClosed?
  {
    hide Nat.Openings, Nat.Run, Nat.ClosedIn, Nat.Matches, Nat.IsOpen, PeerRun, Concat, Emitted;
    Nat.RunRefinesHistory(h, k);
    assert Nat.SessionMatches(Nat.Run(h), h, k, n);
    SenderIsCaller(h[Nat.Openings(h, k)[n]].packet, sent);
    PeerRebuildsTheStream(k, h[Nat.Openings(h, k)[n]].packet.sequence, sent, chunks);
  }

  // ---- A network that reorders, repeats and drops ----------------------------

  predicate NonEmpty(chunks: seq<seq<byte>>) { forall i :: 0 <= i < |chunks| ==> chunks[i] != [] }

  /** Segment `i` after the SYN-ACK; number `|chunks|` is the FIN. */
  function Piece(k: Nat.FlowKey, clientSeq: u32, chunks: seq<seq<byte>>, i: nat): Segment
    requires i <= |chunks|
  {
    if i < |chunks| then Data(k, clientSeq, SeqAt(Offset(chunks, i)), chunks[i])
    else FinAck(k, clientSeq, SeqAt(Offset(chunks, i)))
  }

  /** Arrivals, by number, none of them 2^32 bytes or more from where the application stands. */
  predicate InWindow(k: Nat.FlowKey, clientSeq: u32, chunks: seq<seq<byte>>, p: Peer, arrivals: seq<nat>)
    decreases |arrivals|
  {
    arrivals == [] ||
    (&& arrivals[0] <= |chunks|
     && -WORD < Offset(chunks, arrivals[0]) - |p.data| < WORD
     && InWindow(k, clientSeq, chunks, PeerStep(p, Piece(k, clientSeq, chunks, arrivals[0])), arrivals[1..]))
  }

  function PeerAfter(k: Nat.FlowKey, clientSeq: u32, chunks: seq<seq<byte>>, p: Peer, arrivals: seq<nat>): Peer
    requires InWindow(k, clientSeq, chunks, p, arrivals)
    decreases |arrivals|
  {
    if arrivals == [] then p
    else PeerAfter(k, clientSeq, chunks, PeerStep(p, Piece(k, clientSeq, chunks, arrivals[0])), arrivals[1..])
  }

  /** Two offsets share a number exactly when they are whole words apart. */
  lemma NumbersCoincide(a: nat, b: nat)
    ensures SeqAt(a) == SeqAt(b) <==> (a - b) % WORD == 0
  {
    var x, y := (1 + a) / WORD, (1 + b) / WORD;
    if SeqAt(a) == SeqAt(b) {
      assert a - b == (x - y) * WORD;
    }
  }

  lemma {:induction false} OffsetsIncrease(chunks: seq<seq<byte>>, i: nat, j: nat)
    requires NonEmpty(chunks) && i < j <= |chunks|
    ensures Offset(chunks, i) < Offset(chunks, j)
  {
    OffsetNext(chunks, j - 1);
    if i < j - 1 {
      OffsetsIncrease(chunks, i, j - 1);
    }
  }

  /** The application holds whole chunks in order: `m` of them, and all of them once it has seen the end. */
  predicate HoldsChunks(p: Peer, chunks: seq<seq<byte>>, m: nat) {
    && m <= |chunks| && p.data == Concat(chunks[..m])
    && (p.state.Established? || p.state.RemoteClosed?)
    && (if p.state.RemoteClosed? then m == |chunks| else p.next == SeqAt(Offset(chunks, m)))
  }

  lemma ArrivalKeepsOrder(k: Nat.FlowKey, clientSeq: u32, chunks: seq<seq<byte>>, p: Peer, m: nat, i: nat)
    requires Opened(p, k, clientSeq) && NonEmpty(chunks) && HoldsChunks(p, chunks, m) && i <= |chunks|
    requires -WORD < Offset(chunks, i) - |p.data| < WORD
    ensures var q := PeerStep(p, Piece(k, clientSeq, chunks, i));
            Opened(q, k, clientSeq) && HoldsChunks(q, chunks, if i == m < |chunks| && p.state.Established? then m + 1 else m)
  {
    hide AcceptableAck, IsFor, Concat, SeqAt;
    if p.state.Established? && Piece(k, clientSeq, chunks, i).sequence == p.next {
      NumbersCoincide(Offset(chunks, i), Offset(chunks, m));
      if i < m {
        OffsetsIncrease(chunks, i, m);
      } else if m < i {
        OffsetsIncrease(chunks, m, i);
      }
      if m < |chunks| {
        OffsetNext(chunks, m);
        NextAccepted(k, clientSeq, p, Concat(chunks[..m]), chunks[m]);
      } else {
        FinAccepted(k, clientSeq, p, p.data);
      }
    }
  }

  /** Whatever is lost, repeated or reordered within the window, the application's data is a run of whole chunks from the start. */
  lemma {:induction false} PeerNeverMisorders(k: Nat.FlowKey, clientSeq: u32, chunks: seq<seq<byte>>, p: Peer, m: nat, arrivals: seq<nat>)
    requires Opened(p, k, clientSeq) && NonEmpty(chunks) && HoldsChunks(p, chunks, m)
    requires InWindow(k, clientSeq, chunks, p, arrivals)
    ensures var q := PeerAfter(k, clientSeq, chunks, p, arrivals);
            && (exists n :: m <= n <= |chunks| && q.data == Concat(chunks[..n]))
            && (q.state.RemoteClosed? ==> q.data == Concat(chunks))
    decreases |arrivals|
  {
    hide Piece, PeerStep, Concat, Opened;
    assert chunks[..|chunks|] == chunks;
    if arrivals == [] {
      assert p.data == Concat(chunks[..m]);
    } else {
      var i := arrivals[0];
      var next := if i == m < |chunks| && p.state.Established? then m + 1 else m;
      ArrivalKeepsOrder(k, clientSeq, chunks, p, m, i);
      PeerNeverMisorders(k, clientSeq, chunks, PeerStep(p, Piece(k, clientSeq, chunks, i)), next, arrivals[1..]);
    }
  }

  // ---- Serial numbers --------------------------------------------------------

  const HALF := 0x8000_0000

  /** `a` precedes `b` in arithmetic modulo 2^32 (section 3.4 of RFC 9293). */
  predicate SerialLess(a: u32, b: u32) { 0 < (b - a) % WORD < HALF }

  lemma SerialOrderFaithful(x: nat, y: nat)
    requires -HALF < x - y < HALF
    ensures SerialLess(SeqAt(x), SeqAt(y)) <==> x < y
  {
    var d := SeqAt(y) - SeqAt(x);
    var q := (1 + y) / WORD - (1 + x) / WORD;
    assert d == y - x - q * WORD;
    assert -1 <= q <= 1;
    if q == 0 {
      assert d == y - x;
    }
  }

  lemma SerialAsymmetric(a: u32, b: u32)
    ensures !(SerialLess(a, b) && SerialLess(b, a))
  {
    if a < b {
      assert (b - a) % WORD == b - a && (a - b) % WORD == WORD - (b - a);
    } else if b < a {
      assert (a - b) % WORD == a - b && (b - a) % WORD == WORD - (a - b);
    }
  }

  predicate InSerialOrder(segments: seq<Segment>) {
    forall i, j :: 0 <= i < j < |segments| ==> SerialLess(segments[i].sequence, segments[j].sequence)
  }

  /** Asymmetric orders admit one arrangement. */
  lemma {:induction false} OneSerialArrangement(a: seq<Segment>, b: seq<Segment>)
    requires InSerialOrder(a) && InSerialOrder(b) && multiset(a) == multiset(b)
    ensures a == b
  {
    if a == [] {
      assert |multiset(b)| == 0;
    } else {
      hide SerialLess;
      SameEarliest(a, b);
      RestOf(a);
      RestOf(b);
      OneSerialArrangement(a[1..], b[1..]);
    }
  }

  lemma RestOf(a: seq<Segment>)
    requires a != []
    ensures multiset(a[1..]) == multiset(a) - multiset{a[0]}
  {
    assert a == [a[0]] + a[1..];
  }

  lemma SameEarliest(a: seq<Segment>, b: seq<Segment>)
    requires InSerialOrder(a) && InSerialOrder(b) && multiset(a) == multiset(b) && a != []
    ensures b != [] && a[0] == b[0]
  {
    hide SerialLess;
    assert |multiset(a)| == |a| && |multiset(b)| == |b|;
    assert a[0] in multiset(b) && b[0] in multiset(a);
    var i :| 0 <= i < |b| && b[i] == a[0];
    var j :| 0 <= j < |a| && a[j] == b[0];
    if i > 0 && j > 0 {
      SerialAsymmetric(a[0].sequence, b[0].sequence);
    }
  }

  /** Shuffled segments spanning at most 2^31 bytes go back into their one order, wherever the numbers wrap. */
  lemma SerialReassembly(k: Nat.FlowKey, clientSeq: u32, chunks: seq<seq<byte>>, offset: nat, shuffled: seq<Segment>)
    requires NonEmpty(chunks) && |Concat(chunks)| <= HALF
    requires multiset(shuffled) == multiset(DataSegments(k, clientSeq, chunks, offset))
    ensures InSerialOrder(DataSegments(k, clientSeq, chunks, offset))
    ensures InSerialOrder(shuffled) <==> shuffled == DataSegments(k, clientSeq, chunks, offset)
  {
    var segments := DataSegments(k, clientSeq, chunks, offset);
    if chunks != [] {
      SegmentsTileTheStream(k, clientSeq, chunks, offset, 0);
    }
    forall i, j | 0 <= i < j < |segments|
      ensures SerialLess(segments[i].sequence, segments[j].sequence)
    {
      SegmentsTileTheStream(k, clientSeq, chunks, offset, i);
      SegmentsTileTheStream(k, clientSeq, chunks, offset, j);
      OffsetsIncrease(chunks, i, j);
      OffsetsIncrease(chunks, j, |chunks|);
      assert chunks[..|chunks|] == chunks;
      SerialOrderFaithful(offset + Offset(chunks, i), offset + Offset(chunks, j));
    }
    if InSerialOrder(shuffled) {
      OneSerialArrangement(shuffled, segments);
    }
  }
}
