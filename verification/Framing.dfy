/** Length-prefixed sealed frames: what a send loop puts on the wire, what a receive loop makes of it. */
module Framing {
  import opened Bytes
  import opened Codec
  import opened CodecProofs
  import opened SealedBox

  const CHUNK_MAX := 8192
  const ENC_BUF_LEN := 65536 + 256

  /** One end's view of a session: the key's cipher and the user id stamped into every frame. */
  datatype Link = Link(cipher: Aead, userId: UserId)

  /** One turn of a send loop: the bytes read, and the padding and nonce drawn for them. */
  datatype Send = Send(chunk: seq<byte>, padding: seq<byte>, nonce: Nonce)

  /** What `read` into an 8192-byte buffer and `with_random_padding` can yield. */
  predicate Legal(s: Send) {
    1 <= |s.chunk| <= CHUNK_MAX && |s.padding| <= MAX_PADDING_LEN
  }

  predicate AllLegal(sends: seq<Send>) {
    forall i :: 0 <= i < |sends| ==> Legal(sends[i])
  }

  function DataFrame(link: Link, s: Send): GhostFrame {
    NewFrame(link.userId, NoAddr, s.chunk, s.padding)
  }

  function Sealed(link: Link, nonce: Nonce, f: GhostFrame): seq<byte>
    requires Encodable(f.target)
  {
    Encrypt(link.cipher, nonce, FrameBytes(f))
  }

  /** A length truncated to 16 bits, then the sealed frame. */
  function Record(link: Link, nonce: Nonce, f: GhostFrame): seq<byte>
    requires Encodable(f.target)
  {
    Be16(LowU16(|Sealed(link, nonce, f)|)) + Sealed(link, nonce, f)
  }

  function DataRecord(link: Link, s: Send): seq<byte> {
    Record(link, s.nonce, DataFrame(link, s))
  }

  function Wire(link: Link, sends: seq<Send>): seq<byte> {
    if sends == [] then [] else DataRecord(link, sends[0]) + Wire(link, sends[1..])
  }

  function Payloads(sends: seq<Send>): seq<byte> {
    if sends == [] then [] else sends[0].chunk + Payloads(sends[1..])
  }

  // ---- The receive loop as a function of the bytes it is given -----------

  datatype Halt = AtBoundary | MidLength | MidBody | TooLarge | BadSeal | BadFrame

  /** `rest` is what follows the last complete frame. */
  datatype Received = Received(output: seq<byte>, rest: seq<byte>, halt: Halt)

  function OpenFrame(cipher: Aead, body: seq<byte>): Result<GhostFrame, Halt> {
    match Decrypt(cipher, body)
    case None => Err(BadSeal)
    case Some(plain) =>
      match ParseFrame(plain)
      case Err(_) => Err(BadFrame)
      case Ok(f) => Ok(f)
  }

  function Receive(cipher: Aead, w: seq<byte>): Received
    decreases |w|
  {
    if |w| < 2 then Received([], w, if w == [] then AtBoundary else MidLength)
    else
      var n := FromBe16(w[0], w[1]);
      if n > ENC_BUF_LEN then Received([], w, TooLarge)
      else if |w| - 2 < n then Received([], w, MidBody)
      else
        match OpenFrame(cipher, w[2..2 + n])
        case Err(halt) => Received([], w, halt)
        case Ok(f) =>
          var r := Receive(cipher, w[2 + n..]);
          Received(f.payload + r.output, r.rest, r.halt)
  }

  // ---- Lengths -----------------------------------------------------------

  lemma SealedLength(link: Link, nonce: Nonce, f: GhostFrame)
    requires Lawful(link.cipher) && Encodable(f.target)
    ensures |Sealed(link, nonce, f)| ==
            EncodedLen(f.target) + |f.payload| + |f.padding| + 48
  {
    DecryptInvertsEncrypt(link.cipher, nonce, FrameBytes(f));
    FrameBytesLength(f);
  }

  lemma HeaderValue(link: Link, nonce: Nonce, f: GhostFrame)
    requires Encodable(f.target)
    ensures var r := Record(link, nonce, f); |r| == |Sealed(link, nonce, f)| + 2
    ensures var r := Record(link, nonce, f); FromBe16(r[0], r[1]) == LowU16(|Sealed(link, nonce, f)|)
  {
    Be16RoundTrip(LowU16(|Sealed(link, nonce, f)|));
  }

  lemma LowU16Faithful(n: nat)
    ensures LowU16(n) == n <==> n <= 0xFFFF
  {}

  /** The 16-bit length in front of a data frame is its true length exactly up to this size. */
  lemma OuterLengthFaithful(link: Link, s: Send)
    requires Lawful(link.cipher)
    ensures var r := DataRecord(link, s);
            FromBe16(r[0], r[1]) == |r| - 2 <==> |s.chunk| + |s.padding| + 49 <= 0xFFFF
  {
    var f := DataFrame(link, s);
    SealedLength(link, s.nonce, f);
    HeaderValue(link, s.nonce, f);
    LowU16Faithful(|Sealed(link, s.nonce, f)|);
  }

  /** No cast in a loop-built data frame loses anything, and the receiver's buffer is large enough. */
  lemma LoopFramesFit(link: Link, s: Send)
    requires Lawful(link.cipher) && Legal(s)
    ensures WellFormed(DataFrame(link, s))
    ensures LowU16(|s.chunk|) == |s.chunk| && LowU8(|s.padding|) == |s.padding|
    ensures var r := DataRecord(link, s);
            FromBe16(r[0], r[1]) == |r| - 2 == |s.chunk| + |s.padding| + 49 <= ENC_BUF_LEN
  {
    hide Record, Sealed, FromBe16, Be16, AddrBytes;
    var f := DataFrame(link, s);
    OuterLengthFaithful(link, s);
    SealedLength(link, s.nonce, f);
    HeaderValue(link, s.nonce, f);
  }

  /** Likewise for the init frame, whatever encodable address it carries. */
  lemma InitFrameFits(link: Link, nonce: Nonce, target: TargetAddr, padding: seq<byte>)
    requires Lawful(link.cipher) && Encodable(target) && |padding| <= MAX_PADDING_LEN
    ensures var r := Record(link, nonce, NewFrame(link.userId, target, [], padding));
            FromBe16(r[0], r[1]) == |r| - 2 == EncodedLen(target) + |padding| + 48 <= ENC_BUF_LEN
  {
    var f := NewFrame(link.userId, target, [], padding);
    SealedLength(link, nonce, f);
    HeaderValue(link, nonce, f);
    LowU16Faithful(|Sealed(link, nonce, f)|);
  }

  lemma SizeCheckNeverTrips(cipher: Aead, w: seq<byte>)
    ensures Receive(cipher, w).halt != TooLarge
    decreases |w|
  {
    if |w| >= 2 {
      var n := FromBe16(w[0], w[1]);
      if |w| - 2 >= n && OpenFrame(cipher, w[2..2 + n]).Ok? {
        SizeCheckNeverTrips(cipher, w[2 + n..]);
      }
    }
  }

  // ---- One record --------------------------------------------------------

  lemma OpenSealed(link: Link, nonce: Nonce, f: GhostFrame)
    requires Lawful(link.cipher) && WellFormed(f)
    ensures OpenFrame(link.cipher, Sealed(link, nonce, f)) == Ok(f)
  {
    DecryptInvertsEncrypt(link.cipher, nonce, FrameBytes(f));
    FrameRoundTrip(f, []);
    assert FrameBytes(f) + [] == FrameBytes(f);
  }

  lemma SplitRecord(link: Link, nonce: Nonce, f: GhostFrame, rest: seq<byte>)
    requires Lawful(link.cipher) && WellFormed(f) && |Sealed(link, nonce, f)| <= 0xFFFF
    ensures var w := Record(link, nonce, f) + rest;
            && |w| >= 2
            && var n := FromBe16(w[0], w[1]);
            && n <= |w| - 2 && w[2..2 + n] == Sealed(link, nonce, f) && w[2 + n..] == rest
  {
    hide Sealed, Be16, FromBe16;
    var body := Sealed(link, nonce, f);
    ReadBe16(|body|, body + rest);
    assert Record(link, nonce, f) + rest == Be16(|body|) + (body + rest);
    assert (body + rest)[..|body|] == body && (body + rest)[|body|..] == rest;
    assert (Be16(|body|) + (body + rest))[2..2 + |body|] == body;
  }

  lemma ReceiveRecord(link: Link, nonce: Nonce, f: GhostFrame, rest: seq<byte>)
    requires Lawful(link.cipher) && WellFormed(f) && |Sealed(link, nonce, f)| <= 0xFFFF
    ensures var r := Receive(link.cipher, rest);
            Receive(link.cipher, Record(link, nonce, f) + rest) == Received(f.payload + r.output, r.rest, r.halt)
  {
    SplitRecord(link, nonce, f, rest);
    OpenSealed(link, nonce, f);
  }

  lemma ReceiveDataRecord(link: Link, s: Send, rest: seq<byte>)
    requires Lawful(link.cipher) && Legal(s)
    ensures var r := Receive(link.cipher, rest);
            Receive(link.cipher, DataRecord(link, s) + rest) == r.(output := s.chunk + r.output)
  {
    LoopFramesFit(link, s);
    ReceiveRecord(link, s.nonce, DataFrame(link, s), rest);
  }

  predicate Waiting(h: Halt) { h in {AtBoundary, MidLength, MidBody} }

  /** A proper prefix of a record yields nothing and keeps the loop waiting. */
  lemma ReceivePartialRecord(link: Link, s: Send, w: seq<byte>)
    requires Lawful(link.cipher) && Legal(s)
    requires w < DataRecord(link, s)
    ensures Receive(link.cipher, w).output == [] && Receive(link.cipher, w).rest == w
    ensures Waiting(Receive(link.cipher, w).halt)
    ensures Receive(link.cipher, w).halt == AtBoundary <==> w == []
  {
    LoopFramesFit(link, s);
  }

  // ---- Any prefix of a wire ----------------------------------------------

  /** How many records of `sends` lie wholly within the first `n` bytes of their wire. */
  function Whole(link: Link, sends: seq<Send>, n: nat): (k: nat)
    ensures k <= |sends|
  {
    if sends == [] || n < |DataRecord(link, sends[0])| then 0
    else 1 + Whole(link, sends[1..], n - |DataRecord(link, sends[0])|)
  }

  lemma WireTake(link: Link, sends: seq<Send>, k: nat)
    requires 1 <= k <= |sends|
    ensures Wire(link, sends[..k]) == DataRecord(link, sends[0]) + Wire(link, sends[1..][..k - 1])
    ensures Payloads(sends[..k]) == sends[0].chunk + Payloads(sends[1..][..k - 1])
    ensures |Wire(link, sends[..k])| == |DataRecord(link, sends[0])| + |Wire(link, sends[1..][..k - 1])|
  {
    assert sends[..k][1..] == sends[1..][..k - 1];
  }

  lemma {:induction false} WholeIsMaximal(link: Link, sends: seq<Send>, n: nat)
    ensures var k := Whole(link, sends, n);
            && |Wire(link, sends[..k])| <= n
            && (k < |sends| ==> n < |Wire(link, sends[..k + 1])|)
  {
    hide DataRecord, Payloads;
    var k := Whole(link, sends, n);
    if sends != [] {
      var first := |DataRecord(link, sends[0])|;
      if n >= first {
        WholeIsMaximal(link, sends[1..], n - first);
        WireTake(link, sends, k);
        if k < |sends| {
          WireTake(link, sends, k + 1);
        }
      } else {
        WireTake(link, sends, 1);
      }
    }
  }

  /** `r` holds the payloads of the frames wholly in the first `n` bytes, and waits for more. */
  ghost predicate DeliversWhole(link: Link, sends: seq<Send>, n: nat, r: Received) {
    var k := Whole(link, sends, n);
    && r.output == Payloads(sends[..k])
    && n == |Wire(link, sends[..k])| + |r.rest|
    && Waiting(r.halt)
    && (r.halt == AtBoundary <==> r.rest == [])
  }

  /** Whatever prefix of a wire arrives. */
  lemma {:induction false} ReceiveWirePrefix(link: Link, sends: seq<Send>, w: seq<byte>)
    requires Lawful(link.cipher) && AllLegal(sends)
    requires w <= Wire(link, sends)
    ensures DeliversWhole(link, sends, |w|, Receive(link.cipher, w))
  {
    hide Receive, Whole, Payloads, DataRecord, DeliversWhole;
    if sends == [] || |w| < |DataRecord(link, sends[0])| {
      DeliverNothing(link, sends, w);
    } else {
      var first := DataRecord(link, sends[0]);
      var rest := w[|first|..];
      PrefixPastFirst(first, Wire(link, sends[1..]), w);
      ReceiveDataRecord(link, sends[0], rest);
      ReceiveWirePrefix(link, sends[1..], rest);
      DeliverOneMore(link, sends, |rest|, Receive(link.cipher, rest));
    }
  }

  lemma DeliverNothing(link: Link, sends: seq<Send>, w: seq<byte>)
    requires Lawful(link.cipher) && AllLegal(sends)
    requires w <= Wire(link, sends) && (sends == [] || |w| < |DataRecord(link, sends[0])|)
    ensures DeliversWhole(link, sends, |w|, Receive(link.cipher, w))
  {
    if sends != [] {
      var first := DataRecord(link, sends[0]);
      assert w == (first + Wire(link, sends[1..]))[..|w|] == first[..|w|];
      ReceivePartialRecord(link, sends[0], w);
    }
  }

  lemma DeliverOneMore(link: Link, sends: seq<Send>, n: nat, r: Received)
    requires sends != [] && DeliversWhole(link, sends[1..], n, r)
    ensures DeliversWhole(link, sends, |DataRecord(link, sends[0])| + n,
                          r.(output := sends[0].chunk + r.output))
  {
    WireTake(link, sends, 1 + Whole(link, sends[1..], n));
  }

  lemma PrefixPastFirst(first: seq<byte>, others: seq<byte>, w: seq<byte>)
    requires w <= first + others && |first| <= |w|
    ensures w == first + w[|first|..] && w[|first|..] <= others
  {
    assert (first + others)[..|w|] == w;
    assert w[..|first|] == (first + others)[..|first|];
    assert w[|first|..] == (first + others)[|first|..|w|];
  }

  /** The whole wire gives back the whole stream, at a frame boundary. */
  lemma ReceiveWholeWire(link: Link, sends: seq<Send>)
    requires Lawful(link.cipher) && AllLegal(sends)
    ensures Receive(link.cipher, Wire(link, sends)) == Received(Payloads(sends), [], AtBoundary)
  {
    var w := Wire(link, sends);
    ReceiveWirePrefix(link, sends, w);
    WholeIsMaximal(link, sends, |w|);
    WholeOfAll(link, sends);
    assert sends[..|sends|] == sends;
  }

  lemma {:induction false} WholeOfAll(link: Link, sends: seq<Send>)
    ensures Whole(link, sends, |Wire(link, sends)|) == |sends|
  {
    if sends != [] {
      WholeOfAll(link, sends[1..]);
    }
  }

  lemma {:induction false} WireAppend(link: Link, a: seq<Send>, b: seq<Send>)
    ensures Wire(link, a + b) == Wire(link, a) + Wire(link, b)
    ensures Payloads(a + b) == Payloads(a) + Payloads(b)
  {
    hide DataRecord;
    if a == [] {
      assert a + b == b;
    } else {
      WireAppend(link, a[1..], b);
      WireFirst(link, a, b);
    }
  }

  lemma WireFirst(link: Link, a: seq<Send>, b: seq<Send>)
    requires a != []
    ensures Wire(link, a + b) == Wire(link, [a[0]] + (a[1..] + b)) == DataRecord(link, a[0]) + Wire(link, a[1..] + b)
    ensures Payloads(a + b) == a[0].chunk + Payloads(a[1..] + b)
  {
    hide DataRecord;
    assert a + b == [a[0]] + (a[1..] + b);
    assert (a + b)[1..] == a[1..] + b;
  }

  lemma WireSnoc(link: Link, sends: seq<Send>, s: Send)
    ensures Wire(link, sends + [s]) == Wire(link, sends) + DataRecord(link, s)
    ensures Payloads(sends + [s]) == Payloads(sends) + s.chunk
  {
    WireAppend(link, sends, [s]);
    assert [s][1..] == [];
    assert Wire(link, [s]) == DataRecord(link, s) + Wire(link, []);
    assert Payloads([s]) == s.chunk + Payloads([]);
  }

  // ---- Any input whatever -------------------------------------------------

  /** A body opens exactly when it holds a nonce, a tag and what the cipher opens to an encoded frame; it fails as a seal or as a frame. */
  lemma OpenFrameExact(cipher: Aead, body: seq<byte>)
    ensures forall f :: OpenFrame(cipher, body) == Ok(f) <==>
              |body| >= 28 && cipher.open(body[..12], body[12..]).Some?
              && ParseFrame(cipher.open(body[..12], body[12..]).value) == Ok(f)
    ensures OpenFrame(cipher, body) == Err(BadSeal) <==> |body| < 28 || cipher.open(body[..12], body[12..]).None?
    ensures OpenFrame(cipher, body) == Err(BadFrame) <==>
              |body| >= 28 && cipher.open(body[..12], body[12..]).Some?
              && ParseFrame(cipher.open(body[..12], body[12..]).value).Err?
    ensures OpenFrame(cipher, body).Err? ==> OpenFrame(cipher, body).error in {BadSeal, BadFrame}
  {
    hide ParseFrame;
  }

  /** Sealed frames, each behind its length, high byte first. */
  function Joined(bodies: seq<seq<byte>>): seq<byte>
    requires forall i :: 0 <= i < |bodies| ==> |bodies[i]| <= 0xFFFF
  {
    if bodies == [] then []
    else [|bodies[0]| / 256, |bodies[0]| % 256] + bodies[0] + Joined(bodies[1..])
  }

  /** Every body is a sealed frame, and together they hold `output`. */
  predicate AllOpen(cipher: Aead, bodies: seq<seq<byte>>, output: seq<byte>) {
    if bodies == [] then output == []
    else
      && |bodies[0]| <= 0xFFFF && OpenFrame(cipher, bodies[0]).Ok?
      && OpenFrame(cipher, bodies[0]).value.payload <= output
      && AllOpen(cipher, bodies[1..], output[|OpenFrame(cipher, bodies[0]).value.payload|..])
  }

  /** Why the loop goes no further at `rest`. */
  predicate HaltsAt(cipher: Aead, rest: seq<byte>, halt: Halt) {
    if |rest| < 2 then halt == if rest == [] then AtBoundary else MidLength
    else
      var n := 256 * (rest[0] as int) + rest[1];
      if |rest| - 2 < n then halt == MidBody else OpenFrame(cipher, rest[2..2 + n]) == Err(halt)
  }

  lemma {:induction false} BodiesFit(cipher: Aead, bodies: seq<seq<byte>>, output: seq<byte>)
    requires AllOpen(cipher, bodies, output)
    ensures forall i :: 0 <= i < |bodies| ==> |bodies[i]| <= 0xFFFF
    decreases |bodies|
  {
    hide OpenFrame;
    if bodies != [] {
      BodiesFit(cipher, bodies[1..], output[|OpenFrame(cipher, bodies[0]).value.payload|..]);
      forall i | 0 < i < |bodies|
        ensures |bodies[i]| <= 0xFFFF
      {
        assert bodies[i] == bodies[1..][i - 1];
      }
    }
  }

  /** `w` is `bodies` on the wire, and then `rest`. */
  predicate Splits(cipher: Aead, w: seq<byte>, bodies: seq<seq<byte>>, r: Received) {
    AllOpen(cipher, bodies, r.output) && (BodiesFit(cipher, bodies, r.output); w == Joined(bodies) + r.rest)
    && HaltsAt(cipher, r.rest, r.halt)
  }

  lemma FirstBody(w: seq<byte>, body: seq<byte>, tail: seq<byte>)
    requires |body| <= 0xFFFF && w == [|body| / 256, |body| % 256] + body + tail
    ensures |w| == 2 + |body| + |tail| && FromBe16(w[0], w[1]) == |body|
    ensures w[2..2 + |body|] == body && w[2 + |body|..] == tail
  {}

  lemma LaterBodies(cipher: Aead, w: seq<byte>, bodies: seq<seq<byte>>, r: Received)
    requires Splits(cipher, w, bodies, r) && bodies != []
    ensures var body, f := bodies[0], OpenFrame(cipher, bodies[0]);
            && |body| <= 0xFFFF && f.Ok? && f.value.payload <= r.output
            && |w| >= 2 + |body| && w == [|body| / 256, |body| % 256] + body + w[2 + |body|..]
            && Splits(cipher, w[2 + |body|..], bodies[1..], r.(output := r.output[|f.value.payload|..]))
  {
    hide OpenFrame, HaltsAt;
    var body, f := bodies[0], OpenFrame(cipher, bodies[0]).value;
    BodiesFit(cipher, bodies, r.output);
    BodiesFit(cipher, bodies[1..], r.output[|f.payload|..]);
    var tail := Joined(bodies[1..]) + r.rest;
    Assoc([|body| / 256, |body| % 256] + body, Joined(bodies[1..]), r.rest);
    FirstBody(w, body, tail);
  }

  lemma NoBodies(cipher: Aead, w: seq<byte>, r: Received)
    requires Splits(cipher, w, [], r)
    ensures Receive(cipher, w) == r
  {
    hide OpenFrame;
    assert w == r.rest;
  }

  lemma {:induction false} SplitsAreReceived(cipher: Aead, w: seq<byte>, bodies: seq<seq<byte>>, r: Received)
    requires Splits(cipher, w, bodies, r)
    ensures Receive(cipher, w) == r
    decreases |bodies|
  {
    hide OpenFrame, Splits;
    if bodies == [] {
      NoBodies(cipher, w, r);
    } else {
      LaterBodies(cipher, w, bodies, r);
      var body, payload := bodies[0], OpenFrame(cipher, bodies[0]).value.payload;
      var later := r.(output := r.output[|payload|..]);
      FirstBody(w, body, w[2 + |body|..]);
      SplitsAreReceived(cipher, w[2 + |body|..], bodies[1..], later);
      assert payload + later.output == r.output;
    }
  }

  lemma {:induction false} ReceivedSplits(cipher: Aead, w: seq<byte>) returns (bodies: seq<seq<byte>>)
    ensures Splits(cipher, w, bodies, Receive(cipher, w))
    decreases |w|
  {
    hide OpenFrame;
    bodies := [];
    if |w| >= 2 {
      var n := FromBe16(w[0], w[1]);
      if |w| - 2 >= n && OpenFrame(cipher, w[2..2 + n]).Ok? {
        var more := ReceivedSplits(cipher, w[2 + n..]);
        bodies := [w[2..2 + n]] + more;
        OneMoreBody(cipher, w, n, more, Receive(cipher, w[2 + n..]));
      }
    }
  }

  lemma OneMoreBody(cipher: Aead, w: seq<byte>, n: u16, more: seq<seq<byte>>, r: Received)
    requires |w| >= 2 + n && FromBe16(w[0], w[1]) == n && OpenFrame(cipher, w[2..2 + n]).Ok?
    requires Splits(cipher, w[2 + n..], more, r)
    ensures Splits(cipher, w, [w[2..2 + n]] + more,
                   r.(output := OpenFrame(cipher, w[2..2 + n]).value.payload + r.output))
  {
    hide OpenFrame, HaltsAt;
    var body, f := w[2..2 + n], OpenFrame(cipher, w[2..2 + n]).value;
    var bodies := [body] + more;
    assert bodies[1..] == more && bodies[0] == body;
    assert (f.payload + r.output)[|f.payload|..] == r.output;
    BodiesFit(cipher, more, r.output);
    assert w == [n / 256, n % 256] + body + w[2 + n..];
  }

  /** Whatever bytes arrive, forged or damaged ones too: the loop writes the payloads of the sealed frames at their front, and stops at the first that is incomplete or does not open. */
  lemma ReceiveExact(cipher: Aead, w: seq<byte>, r: Received)
    ensures Receive(cipher, w) == r <==> exists bodies :: Splits(cipher, w, bodies, r)
  {
    hide Splits, Receive;
    var own := ReceivedSplits(cipher, w);
    if bodies :| Splits(cipher, w, bodies, r) {
      SplitsAreReceived(cipher, w, bodies, r);
    }
  }
}
