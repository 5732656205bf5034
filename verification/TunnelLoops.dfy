/** The forwarding loops of ghost-client/src/tunnel.rs and ghost-server/src/handler.rs. */
module TunnelLoops {
  import opened Bytes
  import opened Codec
  import opened CodecProofs
  import opened SealedBox
  import opened Framing
  import opened Streams

  type Padding = s: seq<byte> | |s| <= MAX_PADDING_LEN witness []

  /** The random choices of one turn.  Padding switched off draws the empty string. */
  datatype Draw = Draw(padding: Padding, nonce: Nonce)

  /** The turns of a send loop that reads `chunks`, the first of them being turn `first`. */
  function Sends(chunks: seq<seq<byte>>, draw: nat -> Draw, first: nat): seq<Send> {
    if chunks == [] then []
    else [Send(chunks[0], draw(first).padding, draw(first).nonce)] + Sends(chunks[1..], draw, first + 1)
  }

  lemma {:induction false} SendsCarryTheChunks(chunks: seq<seq<byte>>, draw: nat -> Draw, first: nat)
    requires forall i :: 0 <= i < |chunks| ==> 1 <= |chunks[i]| <= CHUNK_MAX
    ensures AllLegal(Sends(chunks, draw, first))
    ensures Payloads(Sends(chunks, draw, first)) == Concat(chunks)
  {
    if chunks != [] {
      SendsCarryTheChunks(chunks[1..], draw, first + 1);
    }
  }

  lemma {:induction false} TurnsInOrder(chunks: seq<seq<byte>>, draw: nat -> Draw, first: nat, i: nat)
    requires i < |chunks|
    ensures var sends := Sends(chunks, draw, first);
            |sends| == |chunks| && sends[i] == Send(chunks[i], draw(first + i).padding, draw(first + i).nonce)
    decreases |chunks|
  {
    if i > 0 {
      TurnsInOrder(chunks[1..], draw, first + 1, i - 1);
    } else if |chunks| > 1 {
      TurnsInOrder(chunks[1..], draw, first + 1, 0);
    }
  }

  /** Where record `i` lies on the wire. */
  function RecordAt(link: Link, sends: seq<Send>, i: nat): (at: nat)
    requires i < |sends|
    ensures at + |DataRecord(link, sends[i])| <= |Wire(link, sends)|
    ensures Wire(link, sends)[at..at + |DataRecord(link, sends[i])|] == DataRecord(link, sends[i])
  {
    var at := |Wire(link, sends[..i])|;
    assert sends == sends[..i] + ([sends[i]] + sends[i + 1..]);
    WireAppend(link, sends[..i], [sends[i]] + sends[i + 1..]);
    assert ([sends[i]] + sends[i + 1..])[1..] == sends[i + 1..];
    Middle(Wire(link, sends[..i]), DataRecord(link, sends[i]), Wire(link, sends[i + 1..]));
    at
  }

  /** Record `i` of what the loop writes: its two length bytes, turn `i`'s nonce, and a seal on version 1, the link's user id, no target, chunk `i` and turn `i`'s padding. */
  lemma RecordOfTurn(link: Link, segments: seq<seq<byte>>, draw: nat -> Draw, i: nat)
    requires Lawful(link.cipher) && i < |Chunks(segments, CHUNK_MAX)|
    ensures var chunks := Chunks(segments, CHUNK_MAX);
            var sends := Sends(chunks, draw, 0);
            && |sends| == |chunks|
            && var w, at := Wire(link, sends), RecordAt(link, sends, i);
            && at + 52 <= |w|
            && w[at + 2..at + 14] == draw(i).nonce
            && var end := at + 2 + 256 * (w[at] as int) + w[at + 1];
            && at + 14 <= end <= |w|
            && OpenFrame(link.cipher, w[at + 2..end]) == Ok(GhostFrame(1, link.userId, NoAddr, chunks[i], draw(i).padding))
  {
    hide Wire, Chunks, OpenFrame, Sends;
    var chunks := Chunks(segments, CHUNK_MAX);
    var sends := Sends(chunks, draw, 0);
    ChunksCarryTheStream(segments, CHUNK_MAX);
    TurnsInOrder(chunks, draw, 0, i);
    var at := RecordAt(link, sends, i);
    var r := DataRecord(link, sends[i]);
    SealedLayout(link, sends[i]);
    assert Wire(link, sends)[at..at + |r|] == r;
    SliceOfSlice(Wire(link, sends), at, |r|, r);
  }

  lemma SliceOfSlice(w: seq<byte>, at: nat, n: nat, r: seq<byte>)
    requires at + n <= |w| && w[at..at + n] == r && n >= 14
    ensures w[at + 2..at + 14] == r[2..14] && w[at] == r[0] && w[at + 1] == r[1] && w[at + 2..at + n] == r[2..]
  {
    assert forall i :: 0 <= i < n ==> r[i] == w[at + i];
  }

  lemma SealedLayout(link: Link, s: Send)
    requires Lawful(link.cipher) && Legal(s)
    ensures var r := DataRecord(link, s);
            && |r| >= 52 && r[2..14] == s.nonce && 256 * (r[0] as int) + r[1] == |r| - 2
            && OpenFrame(link.cipher, r[2..]) == Ok(GhostFrame(1, link.userId, NoAddr, s.chunk, s.padding))
  {
    hide Be16, FrameBytes, OpenFrame;
    var f := DataFrame(link, s);
    LoopFramesFit(link, s);
    OpenSealed(link, s.nonce, f);
    assert DataRecord(link, s)[2..] == Sealed(link, s.nonce, f);
    assert Sealed(link, s.nonce, f)[..12] == s.nonce;
    assert DataRecord(link, s)[2..14] == DataRecord(link, s)[2..][..12];
  }

  /** Draws that never repeat a nonce. */
  ghost predicate FreshNonces(draw: nat -> Draw) { forall i: nat, j: nat :: i < j ==> draw(i).nonce != draw(j).nonce }

  /** Then no two records of a stream are sealed under the same nonce, however it is segmented. */
  lemma NoncesAreFresh(link: Link, segments: seq<seq<byte>>, draw: nat -> Draw, i: nat, j: nat)
    requires Lawful(link.cipher) && FreshNonces(draw) && i < j < |Chunks(segments, CHUNK_MAX)|
    ensures var sends := Sends(Chunks(segments, CHUNK_MAX), draw, 0);
            && |sends| == |Chunks(segments, CHUNK_MAX)|
            && var w, x, y := Wire(link, sends), RecordAt(link, sends, i), RecordAt(link, sends, j);
            && x + 14 <= |w| && y + 14 <= |w|
            && w[x + 2..x + 14] != w[y + 2..y + 14]
  {
    hide Wire, Chunks, OpenFrame, Sends, DataRecord;
    RecordOfTurn(link, segments, draw, i);
    RecordOfTurn(link, segments, draw, j);
  }

  /** A read fills as much of the 8192-byte buffer as the bytes at hand allow. */
  lemma ReadsFillTheBuffer(first: seq<byte>, segments: seq<seq<byte>>)
    requires first != []
    ensures var chunks := Chunks([first] + segments, CHUNK_MAX);
            chunks != [] && chunks[0] == first[..if |first| <= 8192 then |first| else 8192]
  {}

  datatype SendFinish = SourceEnded(how: Ending) | WriteFailed

  lemma ClipOfLonger(sink: WriteHalf, a: seq<byte>, b: seq<byte>)
    requires !sink.Fits(a)
    ensures !sink.Fits(a + b) && sink.Clip(a + b) == sink.Clip(a)
  {}

  /** Client upload (tunnel.rs) and server download (handler.rs). */
  method SendLoop(link: Link, source: ReadHalf, sink: WriteHalf, draw: nat -> Draw) returns (finish: SendFinish)
    requires sink.Valid()
    modifies source, sink
    ensures sink.Valid()
    ensures var sends := Sends(Chunks(old(source.segments), CHUNK_MAX), draw, 0);
            && sink.written == sink.Clip(old(sink.written) + Wire(link, sends))
            && (finish.WriteFailed? <==> !sink.Fits(old(sink.written) + Wire(link, sends)))
    ensures finish.SourceEnded? ==> finish.how == source.ending && source.Pending() == []
  {
    ghost var sends := Sends(Chunks(source.segments, CHUNK_MAX), draw, 0);
    ghost var all := sink.written + Wire(link, sends);
    var buf := new byte[CHUNK_MAX];
    var turn := 0;
    while true
      invariant sink.Valid() && sink.Fits(sink.written)
      invariant all == sink.written + Wire(link, Sends(Chunks(source.segments, CHUNK_MAX), draw, turn))
      decreases |source.Pending()|
    {
      ghost var before := sink.written;
      var send := ReadTurn(source, buf, draw, turn);
      if send.None? {
        assert before + [] == before;
        return SourceEnded(source.ending);
      }
      ghost var later := Sends(Chunks(source.segments, CHUNK_MAX), draw, turn + 1);
      WireOfNext(link, before, send.value, later);
      var frame := NewFrame(link.userId, NoAddr, send.value.chunk, send.value.padding);
      var ok := WriteRecord(link, send.value.nonce, frame, sink);
      if !ok {
        ClipOfLonger(sink, before + DataRecord(link, send.value), Wire(link, later));
        return WriteFailed;
      }
      turn := turn + 1;
    }
  }

  lemma WireOfNext(link: Link, before: seq<byte>, send: Send, later: seq<Send>)
    ensures before + Wire(link, [send] + later) == before + DataRecord(link, send) + Wire(link, later)
  {
    assert ([send] + later)[1..] == later;
  }

  method ReadTurn(source: ReadHalf, buf: array<byte>, draw: nat -> Draw, turn: nat) returns (send: Option<Send>)
    requires buf.Length == CHUNK_MAX
    modifies source, buf
    ensures var rest := Sends(Chunks(old(source.segments), CHUNK_MAX), draw, turn);
            match send
            case None => rest == [] && source.Pending() == []
            case Some(s) =>
              && rest == [s] + Sends(Chunks(source.segments, CHUNK_MAX), draw, turn + 1)
              && |source.Pending()| < |old(source.Pending())|
  {
    var r := source.Read(buf, 0, CHUNK_MAX);
    if r.Ended? {
      return None;
    }
    assert buf[0..0 + r.n] == buf[..r.n];
    assert ([buf[..r.n]] + Chunks(source.segments, CHUNK_MAX))[1..] == Chunks(source.segments, CHUNK_MAX);
    return Some(Send(buf[..r.n], draw(turn).padding, draw(turn).nonce));
  }

  /** A frame's length and then its bytes, in two writes. */
  method WriteRecord(link: Link, nonce: Nonce, frame: GhostFrame, sink: WriteHalf) returns (ok: bool)
    requires sink.Valid() && Encodable(frame.target)
    modifies sink
    ensures sink.Valid()
    ensures sink.written == sink.Clip(old(sink.written) + Record(link, nonce, frame))
    ensures ok <==> sink.Fits(old(sink.written) + Record(link, nonce, frame))
  {
    var plain := EncodeFrame(frame);
    var encrypted := Encrypt(link.cipher, nonce, plain.value);
    var length := Be16(LowU16(|encrypted|));
    ghost var before := sink.written;
    assert before + Record(link, nonce, frame) == before + length + encrypted;
    ok := sink.WriteAll(length);
    if !ok {
      ClipOfLonger(sink, before + length, encrypted);
      return;
    }
    ok := sink.WriteAll(encrypted);
  }

  datatype ReceiveFinish = InputFinished(halt: Halt) | TargetWriteFailed

  /** Server upload (handler.rs) and client download (tunnel.rs). */
  method ReceiveLoop(cipher: Aead, input: ReadHalf, target: WriteHalf) returns (ghost finish: ReceiveFinish)
    requires target.Valid()
    modifies input, target
    ensures target.Valid()
    ensures var r := Receive(cipher, old(input.Pending()));
            && target.written == target.Clip(old(target.written) + r.output)
            && finish == if target.Fits(old(target.written) + r.output) then InputFinished(r.halt) else TargetWriteFailed
  {
    ghost var whole := Receive(cipher, input.Pending());
    ghost var start := target.written;
    var lenBuf := new byte[2];
    var encBuf := new byte[ENC_BUF_LEN];
    while true
      invariant target.Valid() && target.Fits(target.written)
      invariant start + whole.output == target.written + Receive(cipher, input.Pending()).output
      invariant whole.halt == Receive(cipher, input.Pending()).halt
      decreases |input.Pending()|
    {
      ghost var before := target.written;
      var frame, halt := ReadFrame(cipher, input, lenBuf, encBuf);
      if frame.None? {
        assert before + [] == before;
        return InputFinished(halt);
      }
      var payload := frame.value.payload;
      ghost var later := Receive(cipher, input.Pending()).output;
      assert before + (payload + later) == before + payload + later;
      if payload != [] {
        var ok := target.WriteAll(payload);
        if !ok {
          ClipOfLonger(target, before + payload, later);
          return TargetWriteFailed;
        }
      }
      assert target.written == before + payload;
    }
  }

  /** One frame off the input; `None` ends the loop, for the reason in `halt`. */
  method ReadFrame(cipher: Aead, input: ReadHalf, lenBuf: array<byte>, encBuf: array<byte>)
    returns (frame: Option<GhostFrame>, ghost halt: Halt)
    requires lenBuf != encBuf && lenBuf.Length == 2 && encBuf.Length == ENC_BUF_LEN
    modifies input, lenBuf, encBuf
    ensures var r, later := Receive(cipher, old(input.Pending())), Receive(cipher, input.Pending());
            match frame
            case None => r.output == [] && r.halt == halt
            case Some(f) =>
              && r.output == f.payload + later.output && r.halt == later.halt
              && |input.Pending()| < |old(input.Pending())|
  {
    hide OpenFrame, FromBe16, Concat;
    ghost var w := input.Pending();
    var ok := input.ReadExact(lenBuf, 2);
    if !ok {
      return None, if w == [] then AtBoundary else MidLength;
    }
    var n := FromBe16(lenBuf[0], lenBuf[1]);
    assert lenBuf[..2][0] == w[0] && lenBuf[..2][1] == w[1] && input.Pending() == w[2..];
    if n > encBuf.Length {
      return None, TooLarge;
    }
    ok := input.ReadExact(encBuf, n);
    if !ok {
      return None, MidBody;
    }
    assert encBuf[..n] == w[2..][..n] == w[2..2 + n];
    assert input.Pending() == w[2..][n..] == w[2 + n..];
    var f := OpenBody(cipher, encBuf[..n]);
    if f.Err? {
      return None, f.error;
    }
    return Some(f.value), AtBoundary;
  }

  /** Decrypt, then decode. */
  method OpenBody(cipher: Aead, body: seq<byte>) returns (r: Result<GhostFrame, Halt>)
    ensures r == OpenFrame(cipher, body)
  {
    var plain := Decrypt(cipher, body);
    if plain.None? {
      return Err(BadSeal);
    }
    var frame := DecodeFrame(plain.value);
    if frame.Err? {
      return Err(BadFrame);
    }
    return Ok(frame.value);
  }

  // ---- The two loops over a wire that may be cut --------------------------

  lemma PayloadsOfPrefix(sends: seq<Send>, k: nat)
    requires k <= |sends|
    ensures Payloads(sends[..k]) <= Payloads(sends)
  {
    hide Wire, Payloads, TagOnly;
    assert sends == sends[..k] + sends[k..];
    WireAppend(Link(TagOnly(), seq(16, _ => 0)), sends[..k], sends[k..]);
  }

  /** What the receive loop makes of any prefix of what the send loop writes, whatever the chunking and padding. */
  lemma LoopsCarryTheStream(link: Link, segments: seq<seq<byte>>, draw: nat -> Draw, w: seq<byte>)
    requires Lawful(link.cipher)
    requires w <= Wire(link, Sends(Chunks(segments, CHUNK_MAX), draw, 0))
    ensures var sends := Sends(Chunks(segments, CHUNK_MAX), draw, 0);
            && Receive(link.cipher, w).output == Payloads(sends[..Whole(link, sends, |w|)])
            && Receive(link.cipher, w).output <= Concat(segments)
            && (w == Wire(link, sends) ==>
                  Receive(link.cipher, w).output == Concat(segments) && Receive(link.cipher, w).halt == AtBoundary)
  {
    var chunks := Chunks(segments, CHUNK_MAX);
    var sends := Sends(chunks, draw, 0);
    ChunksCarryTheStream(segments, CHUNK_MAX);
    SendsCarryTheChunks(chunks, draw, 0);
    ReceiveWirePrefix(link, sends, w);
    PayloadsOfPrefix(sends, Whole(link, sends, |w|));
    ReceiveWholeWire(link, sends);
  }
}
