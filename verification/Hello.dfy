/** Session set-up: the clear-text user id and the init frame that names the destination. */
module Hello {
  import opened Bytes
  import opened Codec
  import opened CodecProofs
  import opened SealedBox
  import opened Framing
  import opened Streams
  import opened HexIds
  import opened TunnelLoops

  /** The cipher each user id derives (the fixed secret is part of the function). */
  type Keys = UserId -> Aead

  datatype Admission =
    | Admitted(userId: UserId, target: TargetAddr, payload: seq<byte>)
    | Unauthorized(userId: UserId)
    | InitRefused(halt: Halt)
    | NoTarget
    | Truncated

  /** What the server makes of the first bytes of a connection, and what it leaves for the upload loop. */
  function ParseHello(keys: Keys, allowed: set<seq<byte>>, w: seq<byte>): (Admission, seq<byte>) {
    if |w| < USER_ID_LEN then (Truncated, [])
    else
      var userId: UserId, rest := w[..USER_ID_LEN], w[USER_ID_LEN..];
      if HexEncode(userId) !in allowed then (Unauthorized(userId), rest)
      else ParseInit(keys(userId), userId, rest)
  }

  function ParseInit(cipher: Aead, userId: UserId, w: seq<byte>): (Admission, seq<byte>) {
    if |w| < 2 then (Truncated, [])
    else
      var n := FromBe16(w[0], w[1]);
      if n > ENC_BUF_LEN then (InitRefused(TooLarge), [])
      else if |w| - 2 < n then (Truncated, [])
      else
        match OpenFrame(cipher, w[2..2 + n])
        case Err(halt) => (InitRefused(halt), w[2 + n..])
        case Ok(f) => (if f.target.NoAddr? then NoTarget else Admitted(userId, f.target, f.payload), w[2 + n..])
  }

  /** The opening of `handle_connection`, up to resolving the target. */
  method AcceptClient(stream: ReadHalf, keys: Keys, allowed: set<seq<byte>>) returns (r: Admission)
    modifies stream
    ensures (r, stream.Pending()) == ParseHello(keys, allowed, old(stream.Pending()))
  {
    ghost var w := stream.Pending();
    var idBuf := new byte[USER_ID_LEN];
    var ok := stream.ReadExact(idBuf, USER_ID_LEN);
    if !ok {
      return Truncated;
    }
    var userId: UserId := idBuf[..];
    assert idBuf[..] == idBuf[..USER_ID_LEN];
    assert userId == w[..USER_ID_LEN] && stream.Pending() == w[USER_ID_LEN..];
    if HexEncode(userId) !in allowed {
      return Unauthorized(userId);
    }
    r := AcceptInit(stream, keys(userId), userId);
  }

  method AcceptInit(stream: ReadHalf, cipher: Aead, userId: UserId) returns (r: Admission)
    modifies stream
    ensures (r, stream.Pending()) == ParseInit(cipher, userId, old(stream.Pending()))
  {
    ghost var w := stream.Pending();
    var lenBuf := new byte[2];
    var encBuf := new byte[ENC_BUF_LEN];
    var ok := stream.ReadExact(lenBuf, 2);
    if !ok {
      return Truncated;
    }
    var n := FromBe16(lenBuf[0], lenBuf[1]);
    assert lenBuf[..2][0] == w[0] && lenBuf[..2][1] == w[1] && stream.Pending() == w[2..];
    if n > encBuf.Length {
      return InitRefused(TooLarge);
    }
    ok := stream.ReadExact(encBuf, n);
    if !ok {
      return Truncated;
    }
    assert encBuf[..n] == w[2..][..n] == w[2..2 + n];
    assert stream.Pending() == w[2..][n..] == w[2 + n..];
    var f := OpenBody(cipher, encBuf[..n]);
    if f.Err? {
      return InitRefused(f.error);
    }
    return if f.value.target.NoAddr? then NoTarget else Admitted(userId, f.value.target, f.value.payload);
  }

  function InitFrame(link: Link, target: TargetAddr, draw: Draw): GhostFrame {
    NewFrame(link.userId, target, [], draw.padding)
  }

  function HelloBytes(link: Link, target: TargetAddr, draw: Draw): seq<byte>
    requires Encodable(target)
  {
    link.userId + Record(link, draw.nonce, InitFrame(link, target, draw))
  }

  datatype HelloOutcome = HelloSent | HelloFailed | EncodePanic

  /** Phase 1 of `proxy_through_ghost`. */
  method SendHello(link: Link, target: TargetAddr, draw: Draw, sink: WriteHalf) returns (r: HelloOutcome)
    requires sink.Valid()
    modifies sink
    ensures sink.Valid()
    ensures Encodable(target) ==>
              && sink.written == sink.Clip(old(sink.written) + HelloBytes(link, target, draw))
              && r == if sink.Fits(old(sink.written) + HelloBytes(link, target, draw)) then HelloSent else HelloFailed
    ensures !Encodable(target) ==>
              && sink.written == sink.Clip(old(sink.written) + link.userId)
              && r == if sink.Fits(old(sink.written) + link.userId) then EncodePanic else HelloFailed
  {
    ghost var before := sink.written;
    var ok := sink.WriteAll(link.userId);
    if !ok {
      if Encodable(target) {
        ClipOfLonger(sink, before + link.userId, Record(link, draw.nonce, InitFrame(link, target, draw)));
        assert before + HelloBytes(link, target, draw) ==
               before + link.userId + Record(link, draw.nonce, InitFrame(link, target, draw));
      }
      return HelloFailed;
    }
    if target.Domain? && |target.name| > 255 {
      return EncodePanic;
    }
    assert before + HelloBytes(link, target, draw) ==
           before + link.userId + Record(link, draw.nonce, InitFrame(link, target, draw));
    ok := WriteRecord(link, draw.nonce, InitFrame(link, target, draw), sink);
    return if ok then HelloSent else HelloFailed;
  }

  /** The server reads back the destination the client named, and nothing past the init frame. */
  lemma DestinationPreserved(keys: Keys, allowed: set<seq<byte>>, userId: UserId,
                             target: TargetAddr, draw: Draw, rest: seq<byte>)
    requires Lawful(keys(userId)) && HexEncode(userId) in allowed
    requires WellFormedAddr(target) && !target.NoAddr?
    ensures ParseHello(keys, allowed, HelloBytes(Link(keys(userId), userId), target, draw) + rest)
            == (Admitted(userId, target, []), rest)
  {
    var link := Link(keys(userId), userId);
    var f := InitFrame(link, target, draw);
    var w := HelloBytes(link, target, draw) + rest;
    assert w == userId + (Record(link, draw.nonce, f) + rest);
    assert w[..USER_ID_LEN] == userId && w[USER_ID_LEN..] == Record(link, draw.nonce, f) + rest;
    InitFrameFits(link, draw.nonce, target, draw.padding);
    SplitRecord(link, draw.nonce, f, rest);
    OpenSealed(link, draw.nonce, f);
  }

  /** What the client sends, byte for byte: its id in clear, the length, the nonce, and a seal on version 1, its id, the target, no payload and the padding drawn. */
  lemma HelloLayout(link: Link, target: TargetAddr, draw: Draw)
    requires Lawful(link.cipher) && WellFormedAddr(target)
    ensures var w := HelloBytes(link, target, draw);
            && |w| >= 30 && w[..16] == link.userId && 256 * (w[16] as int) + w[17] == |w| - 18
            && w[18..30] == draw.nonce
            && OpenFrame(link.cipher, w[18..]) == Ok(GhostFrame(1, link.userId, target, [], draw.padding))
  {
    hide OpenFrame, FrameBytes;
    var f := InitFrame(link, target, draw);
    InitFrameFits(link, draw.nonce, target, draw.padding);
    OpenSealed(link, draw.nonce, f);
    var w, sealed := HelloBytes(link, target, draw), Sealed(link, draw.nonce, f);
    assert w[18..] == sealed && sealed[..12] == draw.nonce && w[18..30] == w[18..][..12];
  }

  /** `w` opens with `id`, then `body` behind its length, and goes on with `rest`; `body` is a sealed frame that names `target`. */
  predicate Introduces(keys: Keys, w: seq<byte>, id: UserId, body: seq<byte>, target: TargetAddr, payload: seq<byte>, rest: seq<byte>) {
    && |body| <= 0xFFFF && w == id + ([|body| / 256, |body| % 256] + body + rest)
    && OpenFrame(keys(id), body).Ok?
    && OpenFrame(keys(id), body).value.target == target && OpenFrame(keys(id), body).value.payload == payload
  }

  /** A client is admitted exactly for an allowed id, then one whole sealed frame that names a target; the id inside the frame is not compared. */
  lemma AdmissionExact(keys: Keys, allowed: set<seq<byte>>, w: seq<byte>,
                       id: UserId, target: TargetAddr, payload: seq<byte>, rest: seq<byte>)
    ensures ParseHello(keys, allowed, w) == (Admitted(id, target, payload), rest) <==>
            && HexEncode(id) in allowed && !target.NoAddr?
            && exists body :: Introduces(keys, w, id, body, target, payload, rest)
  {
    hide OpenFrame, HexEncode, ParseHello, Introduces;
    if ParseHello(keys, allowed, w) == (Admitted(id, target, payload), rest) {
      var body := AdmittedIntroduced(keys, allowed, w, id, target, payload, rest);
    }
    if HexEncode(id) in allowed && !target.NoAddr? {
      if body :| Introduces(keys, w, id, body, target, payload, rest) {
        IntroducedIsAdmitted(keys, allowed, w, id, body, target, payload, rest);
      }
    }
  }

  lemma AdmittedIntroduced(keys: Keys, allowed: set<seq<byte>>, w: seq<byte>,
                           id: UserId, target: TargetAddr, payload: seq<byte>, rest: seq<byte>) returns (body: seq<byte>)
    requires ParseHello(keys, allowed, w) == (Admitted(id, target, payload), rest)
    ensures HexEncode(id) in allowed && !target.NoAddr? && Introduces(keys, w, id, body, target, payload, rest)
  {
    hide OpenFrame, HexEncode;
    var v := w[16..];
    var n := FromBe16(v[0], v[1]);
    body := v[2..2 + n];
    assert v == [n / 256, n % 256] + body + v[2 + n..];
  }

  lemma IntroducedIsAdmitted(keys: Keys, allowed: set<seq<byte>>, w: seq<byte>, id: UserId, body: seq<byte>,
                             target: TargetAddr, payload: seq<byte>, rest: seq<byte>)
    requires HexEncode(id) in allowed && !target.NoAddr? && Introduces(keys, w, id, body, target, payload, rest)
    ensures ParseHello(keys, allowed, w) == (Admitted(id, target, payload), rest)
  {
    hide OpenFrame, HexEncode;
    var v := [|body| / 256, |body| % 256] + body + rest;
    assert w[..16] == id && w[16..] == v;
    FirstBody(v, body, rest);
  }

  /** Every refusal, exactly: too few bytes, an id not allowed, a frame that does not open, and one without a target. */
  lemma RefusalExact(keys: Keys, allowed: set<seq<byte>>, w: seq<byte>)
    ensures var r := ParseHello(keys, allowed, w).0;
            && (forall id: UserId :: r == Unauthorized(id) <==> |w| >= 16 && w[..16] == id && HexEncode(id) !in allowed)
            && (r == Truncated <==>
                  |w| < 16 || (HexEncode(w[..16]) in allowed
                               && (|w| < 18 || |w| - 18 < 256 * (w[16] as int) + w[17])))
            && (forall halt :: r == InitRefused(halt) <==>
                  |w| >= 18 && HexEncode(w[..16]) in allowed
                  && var n := 256 * (w[16] as int) + w[17];
                     |w| - 18 >= n && OpenFrame(keys(w[..16]), w[18..18 + n]) == Err(halt))
            && (r == NoTarget <==>
                  |w| >= 18 && HexEncode(w[..16]) in allowed
                  && var n := 256 * (w[16] as int) + w[17];
                     |w| - 18 >= n && OpenFrame(keys(w[..16]), w[18..18 + n]).Ok?
                     && OpenFrame(keys(w[..16]), w[18..18 + n]).value.target.NoAddr?)
  {
    hide OpenFrame, HexEncode;
    if |w| >= 18 {
      var v, n := w[16..], 256 * (w[16] as int) + w[17];
      assert v[0] == w[16] && v[1] == w[17] && FromBe16(v[0], v[1]) == n;
      assert |w| - 18 >= n ==> v[2..2 + n] == w[18..18 + n];
    }
  }

  /** A client configured with `text` is served exactly when the list holds the canonical spelling of `text` undashed. */
  lemma ConfiguredClientServed(keys: Keys, allowed: set<seq<byte>>, text: seq<byte>, userId: UserId,
                               target: TargetAddr, draw: Draw, rest: seq<byte>)
    requires Lawful(keys(userId)) && WellFormedAddr(target) && !target.NoAddr?
    requires Spells(RemoveDashes(text), userId)
    ensures ParseHello(keys, allowed, HelloBytes(Link(keys(userId), userId), target, draw) + rest).0
            == (if Canonical(RemoveDashes(text)) in allowed then Admitted(userId, target, []) else Unauthorized(userId))
  {
    ReencodeIsCanonical(RemoveDashes(text), userId);
    if HexEncode(userId) in allowed {
      DestinationPreserved(keys, allowed, userId, target, draw, rest);
    } else {
      var w := HelloBytes(Link(keys(userId), userId), target, draw) + rest;
      assert w[..USER_ID_LEN] == userId;
    }
  }
}
