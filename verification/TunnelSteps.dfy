/** One direction of a session as a step system: partial writes, arbitrary delivery, cuts, faults, cancellation. */
module TunnelSteps {
  import opened Bytes
  import opened Codec
  import opened CodecProofs
  import opened SealedBox
  import opened Framing

  /** A send loop waits in `read`, is part-way through its two writes, or has left the loop. */
  datatype SenderPhase = Reading | Flushing(outbox: seq<byte>) | Closed(why: SenderEnd)
  datatype SenderEnd = SourceEof | SenderFault | SenderCancelled

  /** A receive loop waits in one of its reads, is part-way through a write, or has left the loop. */
  datatype ReceiverPhase =
    | ReadLength(buf: seq<byte>)
    | ReadBody(len: u16, buf: seq<byte>)
    | Delivering(pending: seq<byte>)
    | Stopped(reason: ReceiverEnd)
  datatype ReceiverEnd = InputEof(atBoundary: bool) | Rejected(halt: Halt) | ReceiverFault | ReceiverCancelled

  /** `todo` is what the source will still produce; `sends`, `sent`, `taken` and `output` record the past. */
  datatype Direction = Direction(
    todo: seq<byte>, sends: seq<Send>, sender: SenderPhase,
    sent: seq<byte>, arrived: nat, cut: bool,
    taken: nat, decoded: nat, receiver: ReceiverPhase, output: seq<byte>)

  function Initial(source: seq<byte>): Direction {
    Direction(source, [], Reading, [], 0, false, 0, 0, ReadLength([]), [])
  }

  /** Everything the source produces over the run. */
  function Source(d: Direction): seq<byte> { Payloads(d.sends) + d.todo }

  datatype Step =
    | ReadChunk(n: nat, padding: seq<byte>, nonce: Nonce)
    | ReadEof
    | ReadFault
    | WireWrite(k: nat)
    | WireFault
    | CancelSender
    | Arrive(k: nat)
    | Cut
    | Take(k: nat)
    | TakeEof
    | TakeFault
    | Deliver(k: nat)
    | DeliverFault
    | CancelReceiver

  function Outbox(d: Direction): seq<byte> {
    if d.sender.Flushing? then d.sender.outbox else []
  }

  /** Bytes `read_exact` may still accept before it completes. */
  function Wanted(r: ReceiverPhase): int {
    match r
    case ReadLength(buf) => 2 - |buf|
    case ReadBody(len, buf) => len - |buf|
    case Delivering(_) => 0
    case Stopped(_) => 0
  }

  predicate Enabled(d: Direction, step: Step) {
    match step
    case ReadChunk(n, padding, _) => d.sender.Reading? && 1 <= n <= CHUNK_MAX && n <= |d.todo| && |padding| <= MAX_PADDING_LEN
    case ReadEof => d.sender.Reading? && d.todo == []
    case ReadFault => d.sender.Reading?
    case WireWrite(k) => d.sender.Flushing? && 1 <= k <= |d.sender.outbox|
    case WireFault => d.sender.Flushing?
    case CancelSender => !d.sender.Closed?
    case Arrive(k) => !d.cut && k >= 1 && d.arrived + k <= |d.sent|
    case Cut => !d.cut
    case Take(k) => 1 <= k <= Wanted(d.receiver) && d.taken + k <= d.arrived <= |d.sent|
    case TakeEof =>
      && (d.receiver.ReadLength? || d.receiver.ReadBody?) && d.taken == d.arrived
      && (d.cut || (d.sender.Closed? && d.arrived == |d.sent|))
    case TakeFault => d.receiver.ReadLength? || d.receiver.ReadBody?
    case Deliver(k) => d.receiver.Delivering? && 1 <= k <= |d.receiver.pending|
    case DeliverFault => d.receiver.Delivering?
    case CancelReceiver => !d.receiver.Stopped?
  }

  function Apply(link: Link, d: Direction, step: Step): Direction
    requires Enabled(d, step)
  {
    match step
    case ReadChunk(n, padding, nonce) =>
      var s := Send(d.todo[..n], padding, nonce);
      d.(todo := d.todo[n..], sends := d.sends + [s], sender := Flushing(DataRecord(link, s)))
    case ReadEof => d.(sender := Closed(SourceEof))
    case ReadFault => d.(sender := Closed(SenderFault))
    case WireWrite(k) =>
      d.(sent := d.sent + d.sender.outbox[..k],
         sender := if k == |d.sender.outbox| then Reading else Flushing(d.sender.outbox[k..]))
    case WireFault => d.(sender := Closed(SenderFault))
    case CancelSender => d.(sender := Closed(SenderCancelled))
    case Arrive(k) => d.(arrived := d.arrived + k)
    case Cut => d.(cut := true)
    case Take(k) =>
      var (phase, frames) := Absorb(link.cipher, d.receiver, d.sent[d.taken..d.taken + k]);
      d.(taken := d.taken + k, receiver := phase, decoded := d.decoded + frames)
    case TakeEof => d.(receiver := Stopped(InputEof(d.receiver == ReadLength([]))))
    case TakeFault => d.(receiver := Stopped(ReceiverFault))
    case Deliver(k) =>
      d.(output := d.output + d.receiver.pending[..k],
         receiver := if k == |d.receiver.pending| then ReadLength([]) else Delivering(d.receiver.pending[k..]))
    case DeliverFault => d.(receiver := Stopped(ReceiverFault))
    case CancelReceiver => d.(receiver := Stopped(ReceiverCancelled))
  }

  /** The receive loop goes on with `bs` just read; it may thereby decode a frame. */
  function Absorb(cipher: Aead, r: ReceiverPhase, bs: seq<byte>): (ReceiverPhase, nat)
    requires 1 <= |bs| <= Wanted(r)
  {
    match r
    case ReadLength(buf) =>
      var b := buf + bs;
      if |b| < 2 then (ReadLength(b), 0)
      else
        var len := FromBe16(b[0], b[1]);
        if len > ENC_BUF_LEN then (Stopped(Rejected(TooLarge)), 0)
        else if len == 0 then Open(cipher, [])
        else (ReadBody(len, []), 0)
    case ReadBody(len, buf) =>
      var b := buf + bs;
      if |b| < len then (ReadBody(len, b), 0) else Open(cipher, b)
  }

  function Open(cipher: Aead, body: seq<byte>): (ReceiverPhase, nat) {
    match OpenFrame(cipher, body)
    case Err(halt) => (Stopped(Rejected(halt)), 0)
    case Ok(f) => (if f.payload == [] then ReadLength([]) else Delivering(f.payload), 1)
  }

  // ---- Runs --------------------------------------------------------------

  predicate IsRun(link: Link, d: Direction, steps: seq<Step>)
    decreases |steps|
  {
    steps == [] || (Enabled(d, steps[0]) && IsRun(link, Apply(link, d, steps[0]), steps[1..]))
  }

  function After(link: Link, d: Direction, steps: seq<Step>): Direction
    requires IsRun(link, d, steps)
    decreases |steps|
  {
    if steps == [] then d else After(link, Apply(link, d, steps[0]), steps[1..])
  }

  // ---- The invariant -----------------------------------------------------

  /** The sender has put a prefix of its records on the wire, all of them if it never failed. */
  ghost predicate SenderInv(link: Link, d: Direction) {
    && AllLegal(d.sends)
    && (match d.sender
        case Reading => d.sent == Wire(link, d.sends)
        case Flushing(outbox) => outbox != [] && d.sent + outbox == Wire(link, d.sends)
        case Closed(SourceEof) => d.sent == Wire(link, d.sends) && d.todo == []
        case Closed(_) => d.sent <= Wire(link, d.sends))
  }

  /** Having read `got` and written `output`, the loop is inside or at the end of the record after `k` decoded ones. */
  ghost predicate At(link: Link, sends: seq<Send>, k: nat, r: ReceiverPhase, got: seq<byte>, output: seq<byte>)
    requires k <= |sends|
  {
    var base, paid := Wire(link, sends[..k]), Payloads(sends[..k]);
    match r
    case ReadLength(buf) => |buf| < 2 && got == base + buf && output == paid
    case ReadBody(len, buf) =>
      && k < |sends| && len == |DataRecord(link, sends[k])| - 2
      && |buf| < len && got == base + (Be16(len) + buf) && output == paid
    case Delivering(pending) => pending != [] && got == base && output + pending == paid
    case Stopped(reason) =>
      && !reason.Rejected?
      && base <= got
      && output <= paid
      && (reason.InputEof? ==> output == paid && (reason.atBoundary <==> got == base))
  }

  ghost predicate ReceiverInv(link: Link, d: Direction) {
    && d.taken <= d.arrived <= |d.sent|
    && d.decoded <= |d.sends|
    && (d.decoded < |d.sends| ==> d.taken < |Wire(link, d.sends[..d.decoded + 1])|)
    && At(link, d.sends, d.decoded, d.receiver, d.sent[..d.taken], d.output)
  }

  ghost predicate Inv(link: Link, d: Direction) {
    SenderInv(link, d) && ReceiverInv(link, d)
  }

  // ---- Every step keeps it -----------------------------------------------

  /** Bytes past the decoded records belong to the next record. */
  lemma PastDecoded(link: Link, sends: seq<Send>, k: nat, b: seq<byte>)
    requires k <= |sends| && b != []
    requires Wire(link, sends[..k]) + b <= Wire(link, sends)
    ensures k < |sends|
    ensures |b| <= |DataRecord(link, sends[k])| ==> b <= DataRecord(link, sends[k])
  {
    var base, others := Wire(link, sends[..k]), Wire(link, sends[k..]);
    assert sends == sends[..k] + sends[k..];
    WireAppend(link, sends[..k], sends[k..]);
    PrefixAfterHead(base, b, others);
    assert sends[k..] != [];
    assert others == DataRecord(link, sends[k]) + Wire(link, sends[k..][1..]);
    if |b| <= |DataRecord(link, sends[k])| {
      assert b == others[..|b|] == DataRecord(link, sends[k])[..|b|];
    }
  }

  /** Two bytes past the decoded records are the true length of the next sealed frame. */
  lemma LengthRead(link: Link, sends: seq<Send>, k: nat, b: seq<byte>)
    requires Lawful(link.cipher) && AllLegal(sends)
    requires k <= |sends| && |b| == 2
    requires Wire(link, sends[..k]) + b <= Wire(link, sends)
    ensures k < |sends|
    ensures FromBe16(b[0], b[1]) == |DataRecord(link, sends[k])| - 2
    ensures 0 < FromBe16(b[0], b[1]) <= ENC_BUF_LEN
  {
    PastDecoded(link, sends, k, b);
    LoopFramesFit(link, sends[k]);
  }

  /** The body completed after that length is the next sealed frame. */
  lemma BodyRead(link: Link, sends: seq<Send>, k: nat, len: u16, body: seq<byte>)
    requires Lawful(link.cipher) && AllLegal(sends)
    requires k < |sends| && |body| == len == |DataRecord(link, sends[k])| - 2
    requires Wire(link, sends[..k]) + (Be16(len) + body) <= Wire(link, sends)
    ensures Be16(len) + body == DataRecord(link, sends[k])
    ensures OpenFrame(link.cipher, body) == Ok(DataFrame(link, sends[k]))
  {
    hide Wire, OpenFrame, DataRecord;
    PastDecoded(link, sends, k, Be16(len) + body);
    OpenRecordBody(link, sends[k], len, body);
  }

  lemma OpenRecordBody(link: Link, s: Send, len: u16, body: seq<byte>)
    requires Lawful(link.cipher) && Legal(s)
    requires Be16(len) + body == DataRecord(link, s)
    ensures OpenFrame(link.cipher, body) == Ok(DataFrame(link, s))
  {
    LoopFramesFit(link, s);
    OpenSealed(link, s.nonce, DataFrame(link, s));
    assert DataRecord(link, s)[2..] == Sealed(link, s.nonce, DataFrame(link, s));
    assert (Be16(len) + body)[2..] == body;
  }

  lemma DecodedGrows(link: Link, sends: seq<Send>, k: nat)
    requires k < |sends|
    ensures Wire(link, sends[..k + 1]) == Wire(link, sends[..k]) + DataRecord(link, sends[k])
    ensures Payloads(sends[..k + 1]) == Payloads(sends[..k]) + sends[k].chunk
  {
    assert sends[..k + 1] == sends[..k] + [sends[k]];
    WireSnoc(link, sends[..k], sends[k]);
  }

  /** Outside a stop, the position is short of the end of the next record. */
  lemma AtIsMaximal(link: Link, sends: seq<Send>, k: nat, r: ReceiverPhase, got: seq<byte>, output: seq<byte>)
    requires Lawful(link.cipher) && AllLegal(sends) && k < |sends|
    requires !r.Stopped? && At(link, sends, k, r, got, output)
    ensures |got| < |Wire(link, sends[..k + 1])|
  {
    hide Wire, Payloads, DataRecord;
    DecodedGrows(link, sends, k);
    LoopFramesFit(link, sends[k]);
  }

  /** Steps of the sender and of the network leave the receiver's past alone. */
  lemma ReceiverUndisturbed(link: Link, d: Direction, e: Direction)
    requires Lawful(link.cipher) && Inv(link, d) && AllLegal(e.sends)
    requires d.sends <= e.sends && d.sent <= e.sent && d.arrived <= e.arrived <= |e.sent|
    requires e.taken == d.taken && e.decoded == d.decoded && e.receiver == d.receiver && e.output == d.output
    ensures ReceiverInv(link, e)
  {
    hide Wire, Payloads, DataRecord;
    var k := d.decoded;
    assert e.sends[..k] == d.sends[..k];
    assert e.sent[..e.taken] == d.sent[..d.taken];
    if k < |d.sends| {
      assert e.sends[..k + 1] == d.sends[..k + 1];
    } else if k < |e.sends| {
      assert d.sends == d.sends[..k];
      SentIsWirePrefix(link, d);
      DecodedGrows(link, e.sends, k);
      LoopFramesFit(link, e.sends[k]);
    }
  }

  lemma SentIsWirePrefix(link: Link, d: Direction)
    requires SenderInv(link, d)
    ensures d.sent <= Wire(link, d.sends)
  {}

  predicate OfSender(step: Step) {
    step.ReadChunk? || step.ReadEof? || step.ReadFault? || step.WireWrite? || step.WireFault? || step.CancelSender?
  }

  lemma ReadChunkKeepsInv(link: Link, d: Direction, step: Step)
    requires Lawful(link.cipher) && Inv(link, d) && Enabled(d, step) && step.ReadChunk?
    ensures Inv(link, Apply(link, d, step))
    ensures Source(Apply(link, d, step)) == Source(d)
  {
    hide Wire, Payloads, Absorb, Sealed;
    var e := Apply(link, d, step);
    var s := Send(d.todo[..step.n], step.padding, step.nonce);
    WireSnoc(link, d.sends, s);
    assert d.todo == s.chunk + e.todo;
    Assoc(Payloads(d.sends), s.chunk, e.todo);
    ReceiverUndisturbed(link, d, e);
  }

  lemma WireWriteKeepsInv(link: Link, d: Direction, k: nat)
    requires Lawful(link.cipher) && Inv(link, d) && Enabled(d, WireWrite(k))
    ensures Inv(link, Apply(link, d, WireWrite(k)))
  {
    hide Wire, Payloads, Absorb, DataRecord;
    var outbox := d.sender.outbox;
    assert outbox == outbox[..k] + outbox[k..];
    Assoc(d.sent, outbox[..k], outbox[k..]);
    ReceiverUndisturbed(link, d, Apply(link, d, WireWrite(k)));
  }

  lemma SenderStepKeepsInv(link: Link, d: Direction, step: Step)
    requires Lawful(link.cipher) && Inv(link, d) && Enabled(d, step) && OfSender(step)
    ensures Inv(link, Apply(link, d, step))
    ensures Source(Apply(link, d, step)) == Source(d)
  {
    hide Wire, Payloads, Absorb, DataRecord;
    if step.ReadChunk? {
      ReadChunkKeepsInv(link, d, step);
    } else if step.WireWrite? {
      WireWriteKeepsInv(link, d, step.k);
    } else {
      SentIsWirePrefix(link, d);
      ReceiverUndisturbed(link, d, Apply(link, d, step));
    }
  }

  lemma AbsorbLength(link: Link, sends: seq<Send>, k: nat, r: ReceiverPhase, got: seq<byte>, output: seq<byte>, bs: seq<byte>)
    requires Lawful(link.cipher) && AllLegal(sends) && k <= |sends|
    requires r.ReadLength? && At(link, sends, k, r, got, output)
    requires 1 <= |bs| <= Wanted(r) && got + bs <= Wire(link, sends)
    ensures var (phase, frames) := Absorb(link.cipher, r, bs);
            frames == 0 && !phase.Stopped? && At(link, sends, k, phase, got + bs, output)
  {
    hide Wire, Payloads, Open, DataRecord;
    var base, b := Wire(link, sends[..k]), r.buf + bs;
    Assoc(base, r.buf, bs);
    if |b| == 2 {
      LengthRead(link, sends, k, b);
      FromBe16RoundTrip(b[0], b[1]);
      assert b + [] == b;
    }
  }

  lemma OpenedAt(link: Link, sends: seq<Send>, k: nat, body: seq<byte>, got: seq<byte>, output: seq<byte>)
    requires k < |sends| && Legal(sends[k])
    requires OpenFrame(link.cipher, body) == Ok(DataFrame(link, sends[k]))
    requires got == Wire(link, sends[..k + 1]) && output + sends[k].chunk == Payloads(sends[..k + 1])
    ensures Open(link.cipher, body).1 == 1
    ensures !Open(link.cipher, body).0.Stopped?
    ensures At(link, sends, k + 1, Open(link.cipher, body).0, got, output)
  {
    hide Wire, Payloads, OpenFrame;
  }

  lemma AbsorbBody(link: Link, sends: seq<Send>, k: nat, r: ReceiverPhase, got: seq<byte>, output: seq<byte>, bs: seq<byte>)
    requires Lawful(link.cipher) && AllLegal(sends) && k <= |sends|
    requires r.ReadBody? && At(link, sends, k, r, got, output)
    requires 1 <= |bs| <= Wanted(r) && got + bs <= Wire(link, sends)
    ensures var (phase, frames) := Absorb(link.cipher, r, bs);
            k + frames <= |sends| && !phase.Stopped? && At(link, sends, k + frames, phase, got + bs, output)
  {
    hide Wire, Payloads, Open, Be16, DataRecord;
    var base, b := Wire(link, sends[..k]), r.buf + bs;
    Assoc(base, Be16(r.len) + r.buf, bs);
    Assoc(Be16(r.len), r.buf, bs);
    assert got + bs == base + (Be16(r.len) + b);
    if |b| == r.len {
      BodyRead(link, sends, k, r.len, b);
      DecodedGrows(link, sends, k);
      OpenedAt(link, sends, k, b, got + bs, output);
    }
  }

  lemma AbsorbKeepsAt(link: Link, sends: seq<Send>, k: nat, r: ReceiverPhase, got: seq<byte>, output: seq<byte>, bs: seq<byte>)
    requires Lawful(link.cipher) && AllLegal(sends) && k <= |sends|
    requires At(link, sends, k, r, got, output)
    requires 1 <= |bs| <= Wanted(r) && got + bs <= Wire(link, sends)
    ensures var (phase, frames) := Absorb(link.cipher, r, bs);
            && k + frames <= |sends|
            && At(link, sends, k + frames, phase, got + bs, output)
            && (k + frames < |sends| ==> |got + bs| < |Wire(link, sends[..k + frames + 1])|)
  {
    hide Wire, Payloads, Absorb, At;
    if r.ReadLength? {
      AbsorbLength(link, sends, k, r, got, output, bs);
    } else {
      AbsorbBody(link, sends, k, r, got, output, bs);
    }
    var (phase, frames) := Absorb(link.cipher, r, bs);
    if k + frames < |sends| {
      AtIsMaximal(link, sends, k + frames, phase, got + bs, output);
    }
  }

  lemma TakeKeepsInv(link: Link, d: Direction, k: nat)
    requires Lawful(link.cipher) && Inv(link, d) && Enabled(d, Take(k))
    ensures Inv(link, Apply(link, d, Take(k)))
  {
    hide Absorb, Wire, Payloads, At;
    var got, bs := d.sent[..d.taken], d.sent[d.taken..d.taken + k];
    assert d.sent[..d.taken + k] == got + bs;
    SentIsWirePrefix(link, d);
    AbsorbKeepsAt(link, d.sends, d.decoded, d.receiver, got, d.output, bs);
  }

  lemma DeliverKeepsInv(link: Link, d: Direction, k: nat)
    requires Inv(link, d) && Enabled(d, Deliver(k))
    ensures Inv(link, Apply(link, d, Deliver(k)))
  {
    hide Wire, Payloads, Absorb, DataRecord;
    var pending := d.receiver.pending;
    assert pending == pending[..k] + pending[k..];
    Assoc(d.output, pending[..k], pending[k..]);
  }

  lemma StopKeepsInv(link: Link, d: Direction, reason: ReceiverEnd)
    requires Inv(link, d) && !d.receiver.Stopped? && !reason.Rejected?
    requires reason.InputEof? ==> !d.receiver.Delivering? && reason.atBoundary == (d.receiver == ReadLength([]))
    ensures Inv(link, d.(receiver := Stopped(reason)))
  {
    hide Wire, Payloads, DataRecord;
  }

  lemma ReceiverStepKeepsInv(link: Link, d: Direction, step: Step)
    requires Lawful(link.cipher) && Inv(link, d) && Enabled(d, step) && !OfSender(step)
    ensures Inv(link, Apply(link, d, step))
    ensures Source(Apply(link, d, step)) == Source(d)
  {
    hide Wire, Payloads, Absorb, DataRecord;
    if step.Take? {
      TakeKeepsInv(link, d, step.k);
    } else if step.Deliver? {
      DeliverKeepsInv(link, d, step.k);
    } else if step.Arrive? || step.Cut? {
      ReceiverUndisturbed(link, d, Apply(link, d, step));
    } else {
      StopKeepsInv(link, d, Apply(link, d, step).receiver.reason);
    }
  }

  lemma StepKeepsInv(link: Link, d: Direction, step: Step)
    requires Lawful(link.cipher) && Inv(link, d) && Enabled(d, step)
    ensures Inv(link, Apply(link, d, step))
    ensures Source(Apply(link, d, step)) == Source(d)
  {
    if OfSender(step) {
      SenderStepKeepsInv(link, d, step);
    } else {
      ReceiverStepKeepsInv(link, d, step);
    }
  }

  lemma InitialInv(link: Link, source: seq<byte>)
    ensures Inv(link, Initial(source)) && Source(Initial(source)) == source
  {}

  lemma {:induction false} RunKeepsInv(link: Link, d: Direction, steps: seq<Step>)
    requires Lawful(link.cipher) && Inv(link, d) && IsRun(link, d, steps)
    ensures Inv(link, After(link, d, steps)) && Source(After(link, d, steps)) == Source(d)
    decreases |steps|
  {
    if steps != [] {
      StepKeepsInv(link, d, steps[0]);
      RunKeepsInv(link, Apply(link, d, steps[0]), steps[1..]);
    }
  }

  // ---- Safety of every run -----------------------------------------------

  lemma WholeIsDecoded(link: Link, d: Direction)
    requires Inv(link, d)
    ensures Whole(link, d.sends, d.taken) == d.decoded
  {
    hide Payloads;
    var n, k := Whole(link, d.sends, d.taken), d.decoded;
    WholeIsMaximal(link, d.sends, d.taken);
    DecodedFits(link, d);
    if n < k {
      WireMonotone(link, d.sends, n + 1, k);
    } else if k < n {
      WireMonotone(link, d.sends, k + 1, n);
    }
  }

  lemma DecodedFits(link: Link, d: Direction)
    requires ReceiverInv(link, d)
    ensures |Wire(link, d.sends[..d.decoded])| <= d.taken
  {
    hide Wire, Payloads;
  }

  lemma WireMonotone(link: Link, sends: seq<Send>, i: nat, j: nat)
    requires i <= j <= |sends|
    ensures |Wire(link, sends[..i])| <= |Wire(link, sends[..j])|
    ensures Payloads(sends[..i]) <= Payloads(sends[..j])
  {
    assert sends[..j] == sends[..i] + sends[i..j];
    WireAppend(link, sends[..i], sends[i..j]);
  }

  /** Bytes of the current frame still to be written to the target. */
  function Pending(d: Direction): seq<byte> {
    if d.receiver.Delivering? then d.receiver.pending else []
  }

  /** In every reachable state the target holds a prefix of the source: the payloads of the frames read whole. */
  lemma RunIsSafe(link: Link, source: seq<byte>, steps: seq<Step>)
    requires Lawful(link.cipher) && IsRun(link, Initial(source), steps)
    ensures var d := After(link, Initial(source), steps);
            && d.taken <= d.arrived <= |d.sent| && d.sent <= Wire(link, d.sends)
            && var due := Payloads(d.sends[..Whole(link, d.sends, d.taken)]);
            && due == Receive(link.cipher, d.sent[..d.taken]).output
            && d.output <= due <= source
            && (!d.receiver.Stopped? || d.receiver.reason.InputEof? ==> d.output + Pending(d) == due)
            && (d.receiver.Stopped? ==> !d.receiver.reason.Rejected?)
  {
    InitialInv(link, source);
    RunKeepsInv(link, Initial(source), steps);
    InvIsSafe(link, After(link, Initial(source), steps));
  }

  lemma InvIsSafe(link: Link, d: Direction)
    requires Lawful(link.cipher) && Inv(link, d)
    ensures d.taken <= d.arrived <= |d.sent| && d.sent <= Wire(link, d.sends)
    ensures var due := Payloads(d.sends[..Whole(link, d.sends, d.taken)]);
            && due == Receive(link.cipher, d.sent[..d.taken]).output
            && d.output <= due <= Source(d)
            && (!d.receiver.Stopped? || d.receiver.reason.InputEof? ==> d.output + Pending(d) == due)
            && (d.receiver.Stopped? ==> !d.receiver.reason.Rejected?)
  {
    hide Wire, Payloads, DataRecord, Receive, Whole;
    SentIsWirePrefix(link, d);
    WholeIsDecoded(link, d);
    ReceiveWirePrefix(link, d.sends, d.sent[..d.taken]);
    WireMonotone(link, d.sends, d.decoded, |d.sends|);
    assert d.sends[..|d.sends|] == d.sends;
    assert d.output + [] == d.output;
  }

  // ---- Every run is finite -------------------------------------------------

  /** A bound on the steps still possible. */
  function Fuel(d: Direction): int {
    1000 * |d.todo| + 3 * |Outbox(d)| + 2 * (|d.sent| - d.arrived) + (d.arrived - d.taken)
    + (|Source(d)| - |d.output|)
    + (if d.sender.Closed? then 0 else 1) + (if d.receiver.Stopped? then 0 else 1) + (if d.cut then 0 else 1)
  }

  lemma FuelIsNatural(link: Link, d: Direction)
    requires Lawful(link.cipher) && Inv(link, d)
    ensures Fuel(d) >= 0
  {
    hide Wire, Payloads;
    InvIsSafe(link, d);
  }

  lemma StepBurnsFuel(link: Link, d: Direction, step: Step)
    requires Lawful(link.cipher) && Inv(link, d) && Enabled(d, step)
    ensures Fuel(Apply(link, d, step)) < Fuel(d)
  {
    hide Wire, Payloads, Absorb, At, DataRecord, Source, SenderInv, OfSender;
    StepKeepsInv(link, d, step);
    if step.ReadChunk? {
      LoopFramesFit(link, Send(d.todo[..step.n], step.padding, step.nonce));
    }
  }

  lemma {:induction false} RunBurnsFuel(link: Link, d: Direction, steps: seq<Step>)
    requires Lawful(link.cipher) && Inv(link, d) && IsRun(link, d, steps)
    ensures |steps| <= Fuel(d) - Fuel(After(link, d, steps))
    decreases |steps|
  {
    hide Inv, Enabled, Apply, Fuel;
    if steps != [] {
      StepKeepsInv(link, d, steps[0]);
      StepBurnsFuel(link, d, steps[0]);
      RunBurnsFuel(link, Apply(link, d, steps[0]), steps[1..]);
    }
  }

  /** Whatever the network and the peers do, a direction comes to rest within this many steps. */
  lemma RunIsShort(link: Link, source: seq<byte>, steps: seq<Step>)
    requires Lawful(link.cipher) && IsRun(link, Initial(source), steps)
    ensures |steps| <= 1001 * |source| + 3
  {
    InitialInv(link, source);
    RunBurnsFuel(link, Initial(source), steps);
    RunKeepsInv(link, Initial(source), steps);
    FuelIsNatural(link, After(link, Initial(source), steps));
  }

  // ---- Completeness --------------------------------------------------------

  /** Every record was put on the wire, and the receiver has read them all. */
  lemma ReadToTheEnd(link: Link, d: Direction)
    requires Inv(link, d) && d.taken == |Wire(link, d.sends)|
    ensures d.decoded == |d.sends| && d.sent[..d.taken] == Wire(link, d.sends) == Wire(link, d.sends[..d.decoded])
    ensures Payloads(d.sends[..d.decoded]) == Payloads(d.sends)
  {
    hide Payloads, DataRecord;
    SentIsWirePrefix(link, d);
    if d.decoded < |d.sends| {
      WireMonotone(link, d.sends, d.decoded + 1, |d.sends|);
    }
    assert d.sends[..|d.sends|] == d.sends;
  }

  /** End of file is seen behind the last byte that can still arrive. */
  predicate EofInv(d: Direction) {
    d.receiver.Stopped? && d.receiver.reason.InputEof? ==>
      d.taken == d.arrived && (d.cut || (d.sender.Closed? && d.arrived == |d.sent|))
  }

  lemma AbsorbSeesNoEof(cipher: Aead, r: ReceiverPhase, bs: seq<byte>)
    requires 1 <= |bs| <= Wanted(r)
    ensures Absorb(cipher, r, bs).0.Stopped? ==> Absorb(cipher, r, bs).0.reason.Rejected?
  {
    hide OpenFrame, FromBe16;
  }

  lemma StepKeepsEofInv(link: Link, d: Direction, step: Step)
    requires EofInv(d) && Enabled(d, step)
    ensures EofInv(Apply(link, d, step))
  {
    hide DataRecord, Absorb;
    if step.Take? {
      AbsorbSeesNoEof(link.cipher, d.receiver, d.sent[d.taken..d.taken + step.k]);
    }
  }

  lemma {:induction false} RunKeepsEofInv(link: Link, d: Direction, steps: seq<Step>)
    requires EofInv(d) && IsRun(link, d, steps)
    ensures EofInv(After(link, d, steps))
    decreases |steps|
  {
    hide Enabled, Apply, EofInv;
    if steps != [] {
      StepKeepsEofInv(link, d, steps[0]);
      RunKeepsEofInv(link, Apply(link, d, steps[0]), steps[1..]);
    }
  }

  lemma EofIsComplete(link: Link, d: Direction)
    requires Lawful(link.cipher) && Inv(link, d) && EofInv(d)
    requires d.receiver.Stopped? && d.receiver.reason.InputEof?
    ensures d.output == Source(d) <==> d.todo == [] && d.arrived == |Wire(link, d.sends)|
    ensures d.sender == Closed(SourceEof) && d.arrived == |d.sent| ==>
              d.output == Source(d) && d.receiver.reason.atBoundary
  {
    hide Wire, Payloads, DataRecord;
    InvIsSafe(link, d);
    if d.taken == |Wire(link, d.sends)| {
      ReadToTheEnd(link, d);
      assert Payloads(d.sends) + [] == Payloads(d.sends);
    }
    if d.output == Source(d) {
      AllPaidIsAllRead(link, d);
    }
  }

  /** A receiver that has written every byte of the source has read every record. */
  lemma AllPaidIsAllRead(link: Link, d: Direction)
    requires Inv(link, d) && d.output == Source(d)
    ensures d.todo == [] && d.taken == |Wire(link, d.sends)|
  {
    hide Wire, Payloads, DataRecord;
    var k := d.decoded;
    SentIsWirePrefix(link, d);
    assert |d.output| <= |Payloads(d.sends[..k])|;
    if k < |d.sends| {
      DecodedGrows(link, d.sends, k);
      WireMonotone(link, d.sends, k + 1, |d.sends|);
    }
    assert d.sends[..|d.sends|] == d.sends;
  }

  /** In any run, whatever failed in it: a receiver that saw end of file has the whole source exactly when every byte of every record arrived; it has, if the sender saw the end of its source and nothing was lost. */
  lemma EndOfFileIsTheEnd(link: Link, source: seq<byte>, steps: seq<Step>)
    requires Lawful(link.cipher) && IsRun(link, Initial(source), steps)
    ensures var d := After(link, Initial(source), steps);
            d.receiver.Stopped? && d.receiver.reason.InputEof? ==>
              && (d.output == source <==> d.todo == [] && d.arrived == |Wire(link, d.sends)|)
              && (d.sender == Closed(SourceEof) && d.arrived == |d.sent| ==>
                    d.output == source && d.receiver.reason.atBoundary)
  {
    hide Wire;
    InitialInv(link, source);
    RunKeepsInv(link, Initial(source), steps);
    RunKeepsEofInv(link, Initial(source), steps);
    var d := After(link, Initial(source), steps);
    if d.receiver.Stopped? && d.receiver.reason.InputEof? {
      EofIsComplete(link, d);
    }
  }

  // ---- Completeness of failure-free runs ----------------------------------

  /** No fault, no cut, no cancellation; the source may end. */
  predicate FailureFree(step: Step) {
    match step
    case ReadFault => false
    case WireFault => false
    case CancelSender => false
    case Cut => false
    case TakeFault => false
    case DeliverFault => false
    case CancelReceiver => false
    case _ => true
  }

  predicate AllFailureFree(steps: seq<Step>) { forall i :: 0 <= i < |steps| ==> FailureFree(steps[i]) }

  /** Nothing but failures is left to happen. */
  ghost predicate Quiescent(d: Direction) {
    forall step :: FailureFree(step) ==> !Enabled(d, step)
  }

  /** The same, except that the source may still end. */
  ghost predicate Drained(d: Direction) {
    forall step :: FailureFree(step) && !step.ReadEof? ==> !Enabled(d, step)
  }

  predicate Clean(d: Direction) {
    && !d.cut
    && (d.sender.Closed? ==> d.sender.why.SourceEof?)
    && (d.receiver.Stopped? ==>
          d.receiver.reason.InputEof? && d.sender.Closed? && d.taken == d.arrived == |d.sent|)
  }

  lemma FailureFreeStep(link: Link, d: Direction, step: Step)
    requires Lawful(link.cipher) && Inv(link, d) && Clean(d)
    requires Enabled(d, step) && FailureFree(step)
    ensures Clean(Apply(link, d, step))
  {
    hide Wire, Payloads, Absorb, At, DataRecord;
    if step.Take? {
      TakeStopsNothing(link, d, step.k);
    }
  }

  lemma TakeStopsNothing(link: Link, d: Direction, k: nat)
    requires Lawful(link.cipher) && Inv(link, d) && Enabled(d, Take(k))
    ensures !Apply(link, d, Take(k)).receiver.Stopped?
  {
    hide Absorb, Wire, Payloads, At;
    var got, bs := d.sent[..d.taken], d.sent[d.taken..d.taken + k];
    assert d.sent[..d.taken + k] == got + bs;
    SentIsWirePrefix(link, d);
    if d.receiver.ReadLength? {
      AbsorbLength(link, d.sends, d.decoded, d.receiver, got, d.output, bs);
    } else {
      AbsorbBody(link, d.sends, d.decoded, d.receiver, got, d.output, bs);
    }
  }

  lemma DrainedIsComplete(link: Link, d: Direction)
    requires Lawful(link.cipher) && Inv(link, d) && Clean(d) && Drained(d)
    ensures d.todo == [] && d.sent == Wire(link, d.sends) && d.output == Source(d)
    ensures d.taken == d.arrived == |d.sent|
    ensures d.sender == Reading || d.sender == Closed(SourceEof)
    ensures d.receiver == ReadLength([]) || d.receiver == Stopped(InputEof(true))
  {
    hide Wire, Payloads, DataRecord;
    var nonce: Nonce := seq(NONCE_SIZE, _ => 0);
    assert !Enabled(d, ReadChunk(1, [], nonce)) && !Enabled(d, WireWrite(1));
    assert !Enabled(d, Arrive(1)) && !Enabled(d, Take(1)) && !Enabled(d, Deliver(1));
    ReadToTheEnd(link, d);
    assert Payloads(d.sends) + [] == Payloads(d.sends);
  }

  lemma QuiescentIsComplete(link: Link, d: Direction)
    requires Lawful(link.cipher) && Inv(link, d) && Clean(d) && Quiescent(d)
    ensures d.sender == Closed(SourceEof) && d.receiver == Stopped(InputEof(true))
    ensures d.sent == Wire(link, d.sends) && d.output == Source(d)
  {
    hide Inv, Wire, Payloads;
    assert !Enabled(d, ReadEof) && !Enabled(d, TakeEof);
    assert Drained(d) by {
      hide Enabled;
    }
    DrainedIsComplete(link, d);
  }

  lemma {:induction false} FailureFreeRun(link: Link, d: Direction, steps: seq<Step>)
    requires Lawful(link.cipher) && Inv(link, d) && Clean(d)
    requires IsRun(link, d, steps) && AllFailureFree(steps)
    ensures Clean(After(link, d, steps))
    decreases |steps|
  {
    hide Inv, Apply, Enabled, Clean;
    if steps != [] {
      StepKeepsInv(link, d, steps[0]);
      FailureFreeStep(link, d, steps[0]);
      FailureFreeRun(link, Apply(link, d, steps[0]), steps[1..]);
    }
  }

  /** A failure-free run that has come to rest has delivered the whole source, and both loops ended by end of file. */
  lemma RunIsComplete(link: Link, source: seq<byte>, steps: seq<Step>)
    requires Lawful(link.cipher) && IsRun(link, Initial(source), steps) && AllFailureFree(steps)
    ensures var d := After(link, Initial(source), steps);
            Quiescent(d) ==>
              && d.output == source
              && d.sender == Closed(SourceEof) && d.receiver == Stopped(InputEof(true))
  {
    InitialInv(link, source);
    RunKeepsInv(link, Initial(source), steps);
    FailureFreeRun(link, Initial(source), steps);
    var d := After(link, Initial(source), steps);
    if Quiescent(d) {
      QuiescentIsComplete(link, d);
    }
  }

  // ---- The adversary can do its worst ---------------------------------------

  lemma FirstStep(link: Link, d: Direction, step: Step, more: seq<Step>) returns (steps: seq<Step>)
    requires Enabled(d, step) && IsRun(link, Apply(link, d, step), more)
    ensures IsRun(link, d, steps) && After(link, d, steps) == After(link, Apply(link, d, step), more)
  {
    hide Enabled, Apply;
    steps := [step] + more;
    assert steps[1..] == more;
  }

  lemma {:induction false} JoinRuns(link: Link, d: Direction, a: seq<Step>, b: seq<Step>)
    requires IsRun(link, d, a) && IsRun(link, After(link, d, a), b)
    ensures IsRun(link, d, a + b) && After(link, d, a + b) == After(link, After(link, d, a), b)
    decreases |a|
  {
    hide Enabled, Apply;
    if a == [] {
      assert a + b == b;
    } else {
      JoinRuns(link, Apply(link, d, a[0]), a[1..], b);
      assert (a + b)[0] == a[0] && (a + b)[1..] == a[1..] + b;
    }
  }

  /** Any division of the source into legal chunks, with any paddings and nonces, can be what the loop sends. */
  lemma {:induction false} SendAll(link: Link, d: Direction, sends: seq<Send>, todo: seq<byte>) returns (steps: seq<Step>)
    requires AllLegal(sends) && d.sender.Reading? && d.todo == Payloads(sends) + todo
    ensures IsRun(link, d, steps)
    ensures After(link, d, steps) == d.(todo := todo, sends := d.sends + sends, sent := d.sent + Wire(link, sends))
    decreases |sends|
  {
    hide DataRecord;
    if sends == [] {
      steps := [];
      assert d.sends + [] == d.sends && d.sent + [] == d.sent && [] + todo == todo;
    } else {
      var s := sends[0];
      var e := SendOne(link, d, s, Payloads(sends[1..]) + todo);
      var more := SendAll(link, e, sends[1..], todo);
      assert d.sends + [s] + sends[1..] == d.sends + sends;
      Assoc(d.sent, DataRecord(link, s), Wire(link, sends[1..]));
      hide Wire, Payloads, Apply;
      more := FirstStep(link, Apply(link, d, ReadChunk(|s.chunk|, s.padding, s.nonce)), WireWrite(|DataRecord(link, s)|), more);
      steps := FirstStep(link, d, ReadChunk(|s.chunk|, s.padding, s.nonce), more);
    }
  }

  lemma SendOne(link: Link, d: Direction, s: Send, later: seq<byte>) returns (e: Direction)
    requires Legal(s) && d.sender.Reading? && d.todo == s.chunk + later
    ensures var read, record := ReadChunk(|s.chunk|, s.padding, s.nonce), DataRecord(link, s);
            && Enabled(d, read)
            && Enabled(Apply(link, d, read), WireWrite(|record|))
            && e == Apply(link, Apply(link, d, read), WireWrite(|record|))
    ensures e == d.(todo := later, sends := d.sends + [s], sent := d.sent + DataRecord(link, s))
  {
    assert d.todo[..|s.chunk|] == s.chunk && d.todo[|s.chunk|..] == later;
    assert |DataRecord(link, s)| >= 2;
    hide DataRecord;
    var record := DataRecord(link, s);
    assert record[..|record|] == record;
    e := d.(todo := later, sends := d.sends + [s], sent := d.sent + record);
  }

  /** The receiver can be brought to any byte that has arrived, one at a time. */
  lemma {:induction false} TakeUpTo(link: Link, d: Direction, n: nat) returns (steps: seq<Step>)
    requires Lawful(link.cipher) && Inv(link, d) && d.taken <= n <= d.arrived && !d.receiver.Stopped?
    ensures IsRun(link, d, steps)
    ensures var e := After(link, d, steps);
            && e == d.(taken := n, decoded := e.decoded, receiver := e.receiver, output := e.output)
            && (e.receiver.ReadLength? || e.receiver.ReadBody?)
    decreases n - d.taken, if d.receiver.Delivering? then 1 else 0
  {
    hide Wire, Payloads, Absorb, DataRecord;
    if d.receiver.Delivering? || d.taken < n {
      var step := if d.receiver.Delivering? then Deliver(|d.receiver.pending|) else Take(1);
      StepKeepsInv(link, d, step);
      if step.Take? {
        TakeStopsNothing(link, d, 1);
      }
      var more := TakeUpTo(link, Apply(link, d, step), n);
      steps := FirstStep(link, d, step, more);
    } else {
      steps := [];
    }
  }

  /** However the source was cut into records, the connection can break after any byte of them, and then the target is left with the whole frames before it. */
  lemma AnyCutHappens(link: Link, sends: seq<Send>, todo: seq<byte>, n: nat) returns (steps: seq<Step>)
    requires Lawful(link.cipher) && AllLegal(sends) && n <= |Wire(link, sends)|
    ensures IsRun(link, Initial(Payloads(sends) + todo), steps)
    ensures var d := After(link, Initial(Payloads(sends) + todo), steps);
            && d.sends == sends && d.sent == Wire(link, sends) && d.todo == todo && d.cut && d.taken == n
            && d.receiver.Stopped? && d.receiver.reason.InputEof?
            && d.output == Payloads(sends[..Whole(link, sends, n)])
  {
    hide Wire, Payloads, DataRecord, Enabled, Apply, Inv, Whole, Receive;
    var start := Initial(Payloads(sends) + todo);
    steps := SendAll(link, start, sends, todo);
    InitialInv(link, Payloads(sends) + todo);
    RunKeepsInv(link, start, steps);
    var d := After(link, start, steps);
    assert [] + sends == sends && [] + Wire(link, sends) == Wire(link, sends);
    var arrive := ArriveAt(link, d, n);
    JoinRuns(link, start, steps, arrive);
    RunKeepsInv(link, d, arrive);
    var e := After(link, d, arrive);
    var take := TakeUpTo(link, e, n);
    JoinRuns(link, start, steps + arrive, take);
    var cut := CutNow(link, After(link, e, take));
    JoinRuns(link, start, steps + arrive + take, cut);
    steps := steps + arrive + take + cut;
    RunIsSafe(link, Payloads(sends) + todo, steps);
    assert After(link, start, steps).output + [] == After(link, start, steps).output;
  }

  lemma ArriveAt(link: Link, d: Direction, n: nat) returns (steps: seq<Step>)
    requires d.arrived == 0 && !d.cut && n <= |d.sent|
    ensures IsRun(link, d, steps) && After(link, d, steps) == d.(arrived := n)
  {
    steps := [];
    if n > 0 {
      steps := FirstStep(link, d, Arrive(n), steps);
    }
  }

  lemma CutNow(link: Link, d: Direction) returns (steps: seq<Step>)
    requires !d.cut && (d.receiver.ReadLength? || d.receiver.ReadBody?) && d.taken == d.arrived
    ensures IsRun(link, d, steps)
    ensures After(link, d, steps) == d.(cut := true, receiver := Stopped(InputEof(d.receiver == ReadLength([]))))
  {
    steps := FirstStep(link, d.(cut := true), TakeEof, []);
    steps := FirstStep(link, d, Cut, steps);
  }

  /** Each loop can fail at any await, and be dropped there, with all else left as it is. */
  lemma LoopsCanFail(link: Link, d: Direction)
    ensures !d.sender.Closed? ==>
              var fault := if d.sender.Reading? then ReadFault else WireFault;
              && Enabled(d, fault) && Apply(link, d, fault) == d.(sender := Closed(SenderFault))
              && Enabled(d, CancelSender) && Apply(link, d, CancelSender) == d.(sender := Closed(SenderCancelled))
    ensures !d.receiver.Stopped? ==>
              var fault := if d.receiver.Delivering? then DeliverFault else TakeFault;
              && Enabled(d, fault) && Apply(link, d, fault) == d.(receiver := Stopped(ReceiverFault))
              && Enabled(d, CancelReceiver) && Apply(link, d, CancelReceiver) == d.(receiver := Stopped(ReceiverCancelled))
  {}

  /** Writes, deliveries, reads and writes to the target move any part of what they could move. */
  lemma AnyPartMoves(link: Link, d: Direction, k: nat)
    requires k >= 1
    ensures d.sender.Flushing? && k <= |d.sender.outbox| ==>
              Enabled(d, WireWrite(k)) && Apply(link, d, WireWrite(k)).sent == d.sent + d.sender.outbox[..k]
    ensures !d.cut && d.arrived + k <= |d.sent| ==>
              Enabled(d, Arrive(k)) && Apply(link, d, Arrive(k)).arrived == d.arrived + k
    ensures k <= Wanted(d.receiver) && d.taken + k <= d.arrived <= |d.sent| ==>
              Enabled(d, Take(k)) && Apply(link, d, Take(k)).taken == d.taken + k
    ensures d.receiver.Delivering? && k <= |d.receiver.pending| ==>
              Enabled(d, Deliver(k)) && Apply(link, d, Deliver(k)).output == d.output + d.receiver.pending[..k]
  {
    hide DataRecord, Absorb;
  }

  // ---- The receiver on any input --------------------------------------------

  /** The receiver given all of `w`, each write to the target going through: where it stops, and what it has written. */
  function Feed(cipher: Aead, r: ReceiverPhase, w: seq<byte>): (ReceiverPhase, seq<byte>)
    decreases |w|, if r.Delivering? then 1 else 0
  {
    match r
    case Delivering(pending) => var (q, out) := Feed(cipher, ReadLength([]), w); (q, pending + out)
    case Stopped(_) => (r, [])
    case _ =>
      if w == [] || Wanted(r) < 1 then (r, [])
      else
        var n := if Wanted(r) <= |w| then Wanted(r) else |w|;
        Feed(cipher, Absorb(cipher, r, w[..n]).0, w[n..])
  }

  /** How the receive loop waits or has ended. */
  function PhaseOf(r: Received): ReceiverPhase {
    match r.halt
    case AtBoundary => ReadLength([])
    case MidLength => ReadLength(r.rest)
    case MidBody => if |r.rest| < 2 then ReadLength(r.rest) else ReadBody(FromBe16(r.rest[0], r.rest[1]), r.rest[2..])
    case halt => Stopped(Rejected(halt))
  }

  /** The bytes of one read may as well come in two. */
  lemma AbsorbSplits(cipher: Aead, r: ReceiverPhase, a: seq<byte>, b: seq<byte>)
    requires 1 <= |a| && 1 <= |b| && |a + b| <= Wanted(r)
    ensures var (q, frames) := Absorb(cipher, r, a);
            frames == 0 && |b| <= Wanted(q) && Absorb(cipher, q, b) == Absorb(cipher, r, a + b)
  {
    hide Open;
    Assoc(if r.ReadLength? then r.buf else if r.ReadBody? then r.buf else [], a, b);
  }

  lemma LengthFed(cipher: Aead, w: seq<byte>)
    requires |w| >= 2
    ensures var n := FromBe16(w[0], w[1]);
            Feed(cipher, ReadLength([]), w) == Feed(cipher, if n == 0 then Open(cipher, []).0 else ReadBody(n, []), w[2..])
  {
    hide Open;
    assert [] + w[..2] == w[..2];
  }

  lemma BodyFed(cipher: Aead, n: u16, v: seq<byte>)
    requires n > 0
    ensures Feed(cipher, ReadBody(n, []), v) ==
            if |v| < n then (ReadBody(n, v), []) else Feed(cipher, Open(cipher, v[..n]).0, v[n..])
  {
    hide Open;
    if |v| < n {
      assert v[..|v|] == v && [] + v == v;
    } else {
      assert [] + v[..n] == v[..n];
    }
  }

  lemma OpenFed(cipher: Aead, body: seq<byte>, v: seq<byte>)
    ensures Feed(cipher, Open(cipher, body).0, v) ==
            match OpenFrame(cipher, body)
            case Err(halt) => (Stopped(Rejected(halt)), [])
            case Ok(f) => var (q, out) := Feed(cipher, ReadLength([]), v); (q, f.payload + out)
  {
    hide OpenFrame, Absorb;
    var out := Feed(cipher, ReadLength([]), v).1;
    assert [] + out == out;
  }

  lemma ShortFed(cipher: Aead, w: seq<byte>)
    requires |w| < 2
    ensures Feed(cipher, ReadLength([]), w) == (ReadLength(w), [])
  {
    if w != [] {
      assert w[..1] == w && [] + w == w;
    }
  }

  /** On every input, forged and damaged ones too, the receiver of the step system does what the receive loop does. */
  lemma {:induction false} FeedIsReceive(cipher: Aead, w: seq<byte>)
    ensures var r := Receive(cipher, w); Feed(cipher, ReadLength([]), w) == (PhaseOf(r), r.output)
    decreases |w|
  {
    hide Open, OpenFrame, Absorb, Feed;
    if |w| < 2 {
      ShortFed(cipher, w);
    } else {
      var n := FromBe16(w[0], w[1]);
      var v := w[2..];
      LengthFed(cipher, w);
      if n > 0 {
        BodyFed(cipher, n, v);
      }
      if |v| >= n {
        assert v[..n] == w[2..2 + n] && v[n..] == w[2 + n..];
        assert n == 0 ==> v[..n] == [] && v[n..] == v;
        OpenFed(cipher, v[..n], v[n..]);
        OpenFrameExact(cipher, v[..n]);
        if OpenFrame(cipher, v[..n]).Ok? {
          FeedIsReceive(cipher, v[n..]);
        }
      }
    }
  }
}
