/** The writer that cuts the first bytes of a connection into small pieces (ghost-client/src/fragment.rs). */
module Fragment {
  import opened Bytes

  // ---- The inner socket ----------------------------------------------------

  /** What the socket does with successive writes; past the end of a script it never becomes ready again. */
  datatype Answer = NotReady | Failing | Takes(n: nat)

  /** One call of the socket's write: at which stream offset, how many bytes offered, how many taken. */
  datatype Offer = Offer(at: nat, len: nat, taken: nat)

  datatype Socket = Socket(script: seq<Answer>, emitted: seq<byte>, offers: seq<Offer>)

  datatype Poll = Pending | Error | Ready(n: nat)

  function SocketPoll(s: Socket, bs: seq<byte>): (Socket, Poll) {
    if s.script == [] then (s, Pending)
    else
      var t := Socket(s.script[1..], s.emitted, s.offers + [Offer(|s.emitted|, |bs|, 0)]);
      match s.script[0]
      case NotReady => (t, Pending)
      case Failing => (t, Error)
      case Takes(n) =>
        var k := Min(n, |bs|);
        (Socket(s.script[1..], s.emitted + bs[..k], s.offers + [Offer(|s.emitted|, |bs|, k)]), Ready(k))
  }

  class TcpStream {
    var state: Socket

    constructor (script: seq<Answer>)
      ensures state == Socket(script, [], [])
    {
      state := Socket(script, [], []);
    }

    method PollWrite(bs: seq<byte>) returns (r: Poll)
      modifies this
      ensures (state, r) == SocketPoll(old(state), bs)
    {
      var (s, answer) := SocketPoll(state, bs);
      state := s;
      return answer;
    }

    /** `write(bs).await`: `None` when the socket never becomes ready. */
    method Write(bs: seq<byte>) returns (r: Option<Poll>)
      modifies this
      ensures (state, r) == Await(old(state), bs)
    {
      while true
        invariant Await(state, bs) == Await(old(state), bs)
        decreases |state.script|
      {
        if state.script == [] {
          return None;
        }
        var p := PollWrite(bs);
        if p != Pending {
          return Some(p);
        }
      }
    }
  }

  function Await(s: Socket, bs: seq<byte>): (Socket, Option<Poll>)
    decreases |s.script|
  {
    if s.script == [] then (s, None)
    else
      var (t, p) := SocketPoll(s, bs);
      if p == Pending then Await(t, bs) else (t, Some(p))
  }

  // ---- The fragmenting stream ------------------------------------------------

  /** `size` is at least 1; `remaining` is what is left of the fragmentation budget. */
  datatype Stream = Stream(socket: Socket, remaining: nat, size: nat)

  function SaturatingSub(a: nat, b: nat): nat { if a <= b then 0 else a - b }

  function ChunkSize(s: Stream, len: nat): nat {
    if s.remaining == 0 then len else Min(Min(s.size, s.remaining), len)
  }

  /** `poll_write` */
  function StreamPoll(s: Stream, buf: seq<byte>): (Stream, Poll) {
    var (t, p) := SocketPoll(s.socket, buf[..ChunkSize(s, |buf|)]);
    (Stream(t, if p.Ready? then SaturatingSub(s.remaining, p.n) else s.remaining, s.size), p)
  }

  datatype WriteEnd = Written(total: nat) | WriteError | Stuck

  lemma {:induction false} AwaitUsesScript(s: Socket, bs: seq<byte>)
    ensures var (t, p) := Await(s, bs);
            && |t.script| <= |s.script|
            && (p.Some? ==> |t.script| < |s.script| && p.value != Pending && (p.value.Ready? ==> p.value.n <= |bs|))
    decreases |s.script|
  {
    if s.script != [] && SocketPoll(s, bs).1 == Pending {
      AwaitUsesScript(SocketPoll(s, bs).0, bs);
    }
  }

  /** `fragmented_write` */
  function Fragmented(s: Stream, buf: seq<byte>): (Stream, WriteEnd) {
    if s.remaining == 0 || buf == [] then PlainWrite(s, buf, 0) else FragmentLoop(s, buf, 0)
  }

  /** The loop, with `total` bytes of the caller's buffer written and `rest` left. */
  function FragmentLoop(s: Stream, rest: seq<byte>, total: nat): (Stream, WriteEnd)
    decreases |s.socket.script|
  {
    if rest == [] then (s, Written(total))
    else if s.remaining == 0 then PlainWrite(s, rest, total)
    else
      var piece := rest[..ChunkSize(s, |rest|)];
      var (t, p) := Await(s.socket, piece);
      AwaitUsesScript(s.socket, piece);
      match p
      case None => (s.(socket := t), Stuck)
      case Some(Error) => (s.(socket := t), WriteError)
      case Some(Ready(n)) => FragmentLoop(Stream(t, SaturatingSub(s.remaining, n), s.size), rest[n..], total + n)
  }

  lemma LoopExit(s: Stream, rest: seq<byte>, total: nat)
    requires rest == [] || s.remaining == 0
    ensures FragmentLoop(s, rest, total) == if rest == [] then (s, Written(total)) else PlainWrite(s, rest, total)
  {}

  lemma DropTwice(s: seq<byte>, n: nat, m: nat)
    requires n + m <= |s|
    ensures s[n..][m..] == s[n + m..]
  {}

  function PlainWrite(s: Stream, rest: seq<byte>, total: nat): (Stream, WriteEnd) {
    var (t, p) := Await(s.socket, rest);
    match p
    case None => (s.(socket := t), Stuck)
    case Some(Ready(n)) => (s.(socket := t), Written(total + n))
    case Some(_) => (s.(socket := t), WriteError)
  }

  class FragmentedStream {
    const inner: TcpStream
    var remaining: nat
    const size: nat

    constructor (inner: TcpStream, fragBytes: nat, fragmentSize: nat)
      ensures this.inner == inner && remaining == fragBytes
      ensures size == if fragmentSize == 0 then 1 else fragmentSize
    {
      this.inner := inner;
      remaining := fragBytes;
      size := if fragmentSize == 0 then 1 else fragmentSize;
    }

    function Abstract(): Stream
      reads this, inner
    {
      Stream(inner.state, remaining, size)
    }

    method PollWrite(buf: seq<byte>) returns (r: Poll)
      modifies this, inner
      ensures (Abstract(), r) == StreamPoll(old(Abstract()), buf)
    {
      if remaining == 0 {
        r := inner.PollWrite(buf);
        assert buf[..|buf|] == buf;
        return;
      }
      var chunk := Min(Min(size, remaining), |buf|);
      r := inner.PollWrite(buf[..chunk]);
      if r.Ready? {
        remaining := SaturatingSub(remaining, r.n);
      }
    }

    method FragmentedWrite(buf: seq<byte>) returns (r: WriteEnd)
      modifies this, inner
      ensures (Abstract(), r) == Fragmented(old(Abstract()), buf)
    {
      if remaining == 0 || buf == [] {
        r := WriteOnce(buf, 0);
      } else {
        r := WriteInPieces(buf);
      }
    }

    /** The loop of `fragmented_write`, and the plain write after it. */
    method WriteInPieces(buf: seq<byte>) returns (r: WriteEnd)
      modifies this, inner
      ensures (Abstract(), r) == FragmentLoop(old(Abstract()), buf, 0)
    {
      hide Await, SocketPoll, PlainWrite, FragmentLoop;
      var total: nat := 0;
      assert buf[total..] == buf;
      while remaining > 0 && total < |buf|
        invariant total <= |buf|
        invariant FragmentLoop(Abstract(), buf[total..], total) == FragmentLoop(old(Abstract()), buf, 0)
        decreases |inner.state.script|
      {
        var p := WritePiece(buf[total..], total);
        if p.None? {
          return Stuck;
        }
        if p.value.Error? {
          return WriteError;
        }
        DropTwice(buf, total, p.value.n);
        total := total + p.value.n;
      }
      LoopExit(Abstract(), buf[total..], total);
      if total < |buf| {
        r := WriteOnce(buf[total..], total);
      } else {
        r := Written(total);
      }
    }

    /** One turn of the loop, with `rest` still to write. */
    method WritePiece(rest: seq<byte>, ghost total: nat) returns (p: Option<Poll>)
      requires remaining > 0 && rest != []
      modifies this, inner
      ensures p != Some(Pending)
      ensures var was := FragmentLoop(old(Abstract()), rest, total);
              match p
              case None => was == (Abstract(), Stuck)
              case Some(Ready(n)) =>
                && n <= |rest| && |inner.state.script| < |old(inner.state.script)|
                && was == FragmentLoop(Abstract(), rest[n..], total + n)
              case Some(_) => was == (Abstract(), WriteError)
    {
      hide Await, SocketPoll, PlainWrite;
      var chunk := Min(Min(size, remaining), |rest|);
      AwaitUsesScript(inner.state, rest[..chunk]);
      p := inner.Write(rest[..chunk]);
      if p.Some? && p.value.Ready? {
        remaining := SaturatingSub(remaining, p.value.n);
      }
    }

    method WriteOnce(rest: seq<byte>, total: nat) returns (r: WriteEnd)
      modifies this, inner
      ensures (Abstract(), r) == PlainWrite(old(Abstract()), rest, total)
    {
      AwaitUsesScript(inner.state, rest);
      var p := inner.Write(rest);
      match p {
        case None => r := Stuck;
        case Some(Ready(n)) => r := Written(total + n);
        case Some(_) => r := WriteError;
      }
    }
  }

  // ---- What the budget promises ------------------------------------------------

  /** No offer inside the budget exceeds a fragment or straddles the end of the budget. */
  predicate SmallEarly(offers: seq<Offer>, budget: nat, size: nat) {
    forall i :: 0 <= i < |offers| && offers[i].at < budget ==>
                  offers[i].len <= size && offers[i].at + offers[i].len <= budget
  }

  /** The writes that began inside the budget and took something. */
  function EarlyWrites(offers: seq<Offer>, budget: nat): nat {
    if offers == [] then 0
    else
      var last := offers[|offers| - 1];
      EarlyWrites(offers[..|offers| - 1], budget) + if last.at < budget && last.taken > 0 then 1 else 0
  }

  /** Invariant of a stream created with `budget` bytes to fragment. */
  ghost predicate Budgeted(s: Stream, budget: nat) {
    && s.size >= 1
    && s.remaining == SaturatingSub(budget, |s.socket.emitted|)
    && SmallEarly(s.socket.offers, budget, s.size)
    && EarlyWrites(s.socket.offers, budget) * s.size >= Min(budget, |s.socket.emitted|)
  }

  lemma CountOneMore(offers: seq<Offer>, o: Offer, budget: nat)
    ensures EarlyWrites(offers + [o], budget) ==
            EarlyWrites(offers, budget) + if o.at < budget && o.taken > 0 then 1 else 0
  {
    assert (offers + [o])[..|offers|] == offers;
  }

  /** One more write of at most `size` bytes covers at most `size` more. */
  lemma CoverOneMore(count: nat, size: nat, emitted: nat, k: nat, budget: nat)
    requires count * size >= Min(budget, emitted)
    requires emitted < budget ==> k <= size
    ensures var more := if emitted < budget && k > 0 then 1 else 0;
            (count + more) * size >= Min(budget, emitted + k)
  {
    assert (count + 1) * size == count * size + size;
  }

  lemma PollKeepsBudget(s: Stream, buf: seq<byte>, budget: nat)
    requires Budgeted(s, budget)
    ensures Budgeted(StreamPoll(s, buf).0, budget)
  {
    hide EarlyWrites;
    var piece := buf[..ChunkSize(s, |buf|)];
    if s.socket.script != [] {
      var k := if s.socket.script[0].Takes? then Min(s.socket.script[0].n, |piece|) else 0;
      CountOneMore(s.socket.offers, Offer(|s.socket.emitted|, |piece|, k), budget);
      CoverOneMore(EarlyWrites(s.socket.offers, budget), s.size, |s.socket.emitted|, k, budget);
    }
  }

  // ---- A caller that writes everything ------------------------------------------

  /** The stream and what is left of `buf` after `m` polls by a caller that goes on after short writes. */
  function Polls(s: Stream, buf: seq<byte>, m: nat): (Stream, seq<byte>)
    decreases m
  {
    if m == 0 then (s, buf)
    else
      var (t, p) := StreamPoll(s, buf);
      Polls(t, if p.Ready? then buf[p.n..] else buf, m - 1)
  }

  lemma PollEmits(s: Stream, buf: seq<byte>)
    ensures var (t, p) := StreamPoll(s, buf);
            && (p.Ready? ==> p.n <= |buf| && t.socket.emitted == s.socket.emitted + buf[..p.n])
            && (!p.Ready? ==> t.socket.emitted == s.socket.emitted)
  {}

  /** Under any answers: the bytes offered go out once, in order, within the budget's promise. */
  lemma {:induction false} PollsAreTransparent(s: Stream, buf: seq<byte>, m: nat, budget: nat)
    requires Budgeted(s, budget)
    ensures var (t, left) := Polls(s, buf, m);
            && t.socket.emitted + left == s.socket.emitted + buf
            && Budgeted(t, budget)
    decreases m
  {
    if m > 0 {
      hide SocketPoll, StreamPoll, Budgeted;
      var (t, p) := StreamPoll(s, buf);
      PollEmits(s, buf);
      PollKeepsBudget(s, buf, budget);
      var left := if p.Ready? then buf[p.n..] else buf;
      if p.Ready? {
        assert s.socket.emitted + buf == s.socket.emitted + buf[..p.n] + buf[p.n..];
      }
      PollsAreTransparent(t, left, m - 1, budget);
    }
  }

  /** Once the budget is spent, at least as many writes as its fragments have covered it. */
  lemma BudgetCovered(s: Stream, budget: nat)
    requires Budgeted(s, budget) && |s.socket.emitted| >= budget
    ensures s.remaining == 0
    ensures EarlyWrites(s.socket.offers, budget) >= (budget + s.size - 1) / s.size
  {
    CeilingBound(EarlyWrites(s.socket.offers, budget), s.size, budget);
  }

  lemma CeilingBound(e: nat, size: nat, budget: nat)
    requires size >= 1 && e * size >= budget
    ensures e >= (budget + size - 1) / size
  {
    var q := (budget + size - 1) / size;
    assert q * size <= budget + size - 1;
    assert (q - e) * size == q * size - e * size < size;
    assert q - e >= 1 ==> (q - e) * size >= size;
  }

  // ---- The async loop is repeated polling -----------------------------------------

  lemma {:induction false} PollsAdd(s: Stream, buf: seq<byte>, m: nat, n: nat)
    ensures var (t, left) := Polls(s, buf, m); Polls(s, buf, m + n) == Polls(t, left, n)
    decreases m
  {
    if m > 0 {
      hide StreamPoll;
      var (t, p) := StreamPoll(s, buf);
      PollsAdd(t, if p.Ready? then buf[p.n..] else buf, m - 1, n);
    }
  }

  /** Awaiting one write is polling until the answer is not `Pending`. */
  lemma {:induction false} AwaitIsPolls(s: Stream, buf: seq<byte>) returns (m: nat)
    ensures var (t, p) := Await(s.socket, buf[..ChunkSize(s, |buf|)]);
            Polls(s, buf, m) ==
              match p
              case Some(Ready(n)) => (Stream(t, SaturatingSub(s.remaining, n), s.size), if n <= |buf| then buf[n..] else [])
              case _ => (s.(socket := t), buf)
    decreases |s.socket.script|
  {
    var piece := buf[..ChunkSize(s, |buf|)];
    if s.socket.script == [] {
      m := 0;
    } else {
      var (t, p) := StreamPoll(s, buf);
      if p == Pending {
        var rest := AwaitIsPolls(t, buf);
        m := rest + 1;
      } else {
        m := 1;
        assert Polls(s, buf, 1) == Polls(t, if p.Ready? then buf[p.n..] else buf, 0);
      }
    }
  }

  lemma NoPolls(s: Stream, buf: seq<byte>)
    ensures Polls(s, buf, 0) == (s, buf)
  {}

  /** Without a budget the whole buffer is offered, and the budget stays spent. */
  lemma SpentBudget(s: Stream, buf: seq<byte>)
    requires s.remaining == 0
    ensures buf[..ChunkSize(s, |buf|)] == buf && forall n: nat :: SaturatingSub(s.remaining, n) == 0
  {}

  /** `more` polls after the `m` that made one turn of the loop, in which the socket took `n` bytes. */
  lemma LoopTurn(s: Stream, rest: seq<byte>, total: nat, n: nat, m: nat, more: nat, next: Stream)
    requires n <= |rest| && Polls(s, rest, m) == (next, rest[n..])
    requires FragmentLoop(s, rest, total) == FragmentLoop(next, rest[n..], total + n)
    requires AsPolled(next, rest[n..], total + n, more)
    ensures AsPolled(s, rest, total, m + more)
  {
    hide Polls, FragmentLoop;
    PollsAdd(s, rest, m, more);
    var end := FragmentLoop(next, rest[n..], total + n).1;
    if end.Written? {
      DropTwice(rest, n, end.total - (total + n));
    }
  }

  lemma LoopUnfolds(s: Stream, rest: seq<byte>, total: nat, n: nat)
    requires rest != [] && s.remaining > 0 && n <= |rest|
    requires Await(s.socket, rest[..ChunkSize(s, |rest|)]).1 == Some(Ready(n))
    ensures var next := Stream(Await(s.socket, rest[..ChunkSize(s, |rest|)]).0, SaturatingSub(s.remaining, n), s.size);
            FragmentLoop(s, rest, total) == FragmentLoop(next, rest[n..], total + n)
  {
    var piece := rest[..ChunkSize(s, |rest|)];
    hide Await, SaturatingSub, ChunkSize;
  }

  /** The loop leaves the socket, the budget and the unwritten bytes as `m` polls would. */
  ghost predicate AsPolled(s: Stream, rest: seq<byte>, total: nat, m: nat) {
    var (t, end) := FragmentLoop(s, rest, total);
    && Polls(s, rest, m).0 == t
    && (end.Written? ==> total <= end.total <= total + |rest| && Polls(s, rest, m).1 == rest[end.total - total..])
  }

  lemma LastWriteIsPolled(s: Stream, rest: seq<byte>, total: nat, m: nat)
    requires rest != [] && s.remaining == 0
    requires Polls(s, rest, m) ==
             match Await(s.socket, rest).1
             case Some(Ready(n)) => (s.(socket := Await(s.socket, rest).0), if n <= |rest| then rest[n..] else [])
             case _ => (s.(socket := Await(s.socket, rest).0), rest)
    ensures AsPolled(s, rest, total, m)
  {
    hide Await, SocketPoll, StreamPoll, Polls;
    AwaitUsesScript(s.socket, rest);
  }

  lemma {:induction false} LoopIsPolls(s: Stream, rest: seq<byte>, total: nat) returns (m: nat)
    ensures AsPolled(s, rest, total, m)
    decreases |s.socket.script|
  {
    var piece := rest[..ChunkSize(s, |rest|)];
    NoPolls(s, rest);
    if rest == [] {
      m := 0;
    } else {
      m := AwaitIsPolls(s, rest);
      var (t, p) := Await(s.socket, piece);
      AwaitUsesScript(s.socket, piece);
      hide Await, SocketPoll, StreamPoll, Polls, ChunkSize, SaturatingSub;
      if s.remaining == 0 {
        SpentBudget(s, rest);
        LastWriteIsPolled(s, rest, total, m);
      } else if p.Some? && p.value.Ready? {
        hide AsPolled, FragmentLoop;
        var n := p.value.n;
        var next := Stream(t, SaturatingSub(s.remaining, n), s.size);
        LoopUnfolds(s, rest, total, n);
        var more := LoopIsPolls(next, rest[n..], total + n);
        LoopTurn(s, rest, total, n, m, more, next);
        m := m + more;
      }
    }
  }

  /** `fragmented_write` refines `poll_write`. */
  lemma FragmentedIsPolls(s: Stream, buf: seq<byte>) returns (m: nat)
    ensures var (t, end) := Fragmented(s, buf);
            && Polls(s, buf, m).0 == t
            && (end.Written? ==> end.total <= |buf| && Polls(s, buf, m).1 == buf[end.total..])
  {
    if s.remaining == 0 || buf == [] {
      hide Await;
      assert buf[..ChunkSize(s, |buf|)] == buf;
      m := AwaitIsPolls(s, buf);
      AwaitUsesScript(s.socket, buf);
      var (t, p) := Await(s.socket, buf);
      assert p.Some? && p.value.Ready? ==> SaturatingSub(s.remaining, p.value.n) == s.remaining;
      assert Fragmented(s, buf) == PlainWrite(s, buf, 0);
    } else {
      m := LoopIsPolls(s, buf, 0);
    }
  }

  // ---- Progress -----------------------------------------------------------------------

  predicate Progressing(script: seq<Answer>) {
    forall i :: 0 <= i < |script| ==> script[i].Takes? && script[i].n >= 1
  }

  /** A socket that always takes something lets the loop end, having spent the budget or the buffer. */
  lemma {:induction false} LoopEnds(s: Stream, rest: seq<byte>, total: nat)
    requires s.size >= 1 && Progressing(s.socket.script) && |s.socket.script| > |rest|
    ensures var (t, end) := FragmentLoop(s, rest, total);
            && end.Written? && end.total >= total + Min(s.remaining, |rest|)
            && (rest != [] ==> end.total > total)
            && |s.socket.script| - |t.socket.script| <= |rest|
    decreases |rest|
  {
    if rest != [] {
      var piece := rest[..ChunkSize(s, |rest|)];
      var (t, p) := SocketPoll(s.socket, piece);
      assert Await(s.socket, piece) == (t, Some(p)) && p.Ready? && p.n >= 1;
      if s.remaining > 0 {
        LoopEnds(Stream(t, SaturatingSub(s.remaining, p.n), s.size), rest[p.n..], total + p.n);
      } else {
        assert piece == rest;
      }
    }
  }

  // ---- What is offered, and how the loop ends ------------------------------------------

  /** From offer `from` on, each is of a fragment, cut at the end of the budget or of the stream of `total` bytes, or behind the budget of all that is left. */
  predicate ExactOffers(offers: seq<Offer>, from: nat, budget: nat, size: nat, total: nat) {
    forall i :: from <= i < |offers| ==>
                  var o := offers[i];
                  o.at <= total && o.len == if o.at < budget then Min(Min(size, budget - o.at), total - o.at) else total - o.at
  }

  /** One poll makes at most one offer, at the end of what was emitted. */
  lemma PollOffers(s: Stream, buf: seq<byte>)
    ensures var offers, offers' := s.socket.offers, StreamPoll(s, buf).0.socket.offers;
            && (|s.socket.script| == 0 ==> offers' == offers)
            && (|s.socket.script| > 0 ==>
                  |offers'| == |offers| + 1 && offers'[..|offers|] == offers
                  && offers'[|offers|].at == |s.socket.emitted| && offers'[|offers|].len == ChunkSize(s, |buf|))
            && StreamPoll(s, buf).0.size == s.size
  {}

  /** Exactly these pieces are offered, whatever the socket answers. */
  lemma {:induction false} OffersAreExact(s: Stream, buf: seq<byte>, m: nat, budget: nat)
    requires Budgeted(s, budget)
    ensures var offers := Polls(s, buf, m).0.socket.offers;
            && s.socket.offers <= offers
            && ExactOffers(offers, |s.socket.offers|, budget, s.size, |s.socket.emitted| + |buf|)
    decreases m
  {
    if m > 0 {
      PollOffers(s, buf);
      PollEmits(s, buf);
      PollKeepsBudget(s, buf, budget);
      BudgetLeft(s, budget);
      hide SocketPoll, StreamPoll, ChunkSize, Budgeted, ExactOffers;
      var (t, p) := StreamPoll(s, buf);
      var left := if p.Ready? then buf[p.n..] else buf;
      FirstOfferExact(s, buf, t.socket.offers, budget);
      OffersAreExact(t, left, m - 1, budget);
      MoreOffers(s.socket.offers, t.socket.offers, Polls(t, left, m - 1).0.socket.offers, budget, s.size,
                 |s.socket.emitted| + |buf|);
    }
  }

  lemma BudgetLeft(s: Stream, budget: nat)
    requires Budgeted(s, budget)
    ensures s.size >= 1 && s.remaining == SaturatingSub(budget, |s.socket.emitted|)
  {}

  lemma FirstOfferExact(s: Stream, buf: seq<byte>, offers: seq<Offer>, budget: nat)
    requires s.size >= 1 && s.remaining == SaturatingSub(budget, |s.socket.emitted|)
    requires offers == s.socket.offers
             || (|offers| == |s.socket.offers| + 1 && offers[|s.socket.offers|].at == |s.socket.emitted|
                 && offers[|s.socket.offers|].len == ChunkSize(s, |buf|))
    ensures ExactOffers(offers, |s.socket.offers|, budget, s.size, |s.socket.emitted| + |buf|)
  {}

  lemma MoreOffers(a: seq<Offer>, b: seq<Offer>, c: seq<Offer>, budget: nat, size: nat, total: nat)
    requires a <= b <= c
    requires ExactOffers(b, |a|, budget, size, total) && ExactOffers(c, |b|, budget, size, total)
    ensures a <= c && ExactOffers(c, |a|, budget, size, total)
  {
    forall i | |a| <= i < |b|
      ensures c[i] == b[i]
    {
    }
  }

  /** The answers a write used up. */
  function Used(s: Socket, t: Socket): seq<Answer>
    requires |t.script| <= |s.script|
  {
    s.script[..|s.script| - |t.script|]
  }

  /** An awaited write uses up answers until one that is not `NotReady`. */
  lemma {:induction false} AwaitEnds(s: Socket, bs: seq<byte>)
    ensures var (t, p) := Await(s, bs);
            && |t.script| <= |s.script| && t.script == s.script[|s.script| - |t.script|..]
            && (p.None? ==> t.script == [] && forall a :: a in Used(s, t) ==> a == NotReady)
            && (p.Some? ==> Used(s, t) != [] && forall i :: 0 <= i < |Used(s, t)| - 1 ==> Used(s, t)[i] == NotReady)
            && (p.Some? ==> match Used(s, t)[|Used(s, t)| - 1]
                            case NotReady => false
                            case Failing => p.value == Error
                            case Takes(n) => p.value == Ready(Min(n, |bs|)))
    decreases |s.script|
  {
    if s.script != [] {
      var (u, p) := SocketPoll(s, bs);
      if p == Pending {
        AwaitEnds(u, bs);
        var t := Await(u, bs).0;
        assert Used(s, t) == [NotReady] + Used(u, t);
      } else {
        assert Used(s, u) == [s.script[0]];
      }
    }
  }

  /** It offers its bytes at one place, and only the last offer moves any. */
  lemma {:induction false} AwaitOffers(s: Socket, bs: seq<byte>)
    ensures var (t, p) := Await(s, bs);
            && s.offers <= t.offers
            && (forall i :: |s.offers| <= i < |t.offers| ==> t.offers[i].at == |s.emitted|)
            && (forall i :: |s.offers| <= i < |t.offers| - 1 ==> t.offers[i].taken == 0)
            && |t.emitted| == |s.emitted| + if p.Some? && p.value.Ready? then p.value.n else 0
    decreases |s.script|
  {
    if s.script != [] {
      var (u, p) := SocketPoll(s, bs);
      if p == Pending {
        AwaitOffers(u, bs);
        hide SocketPoll;
        assert Await(u, bs).0.offers[|s.offers|] == u.offers[|s.offers|];
      }
    }
  }

  /** Only a failing answer ends a write in an error, and then it is the last used up. */
  lemma UsedFailure(s: Socket, bs: seq<byte>)
    ensures var (t, p) := Await(s, bs);
            && |t.script| <= |s.script| && t.script == s.script[|s.script| - |t.script|..]
            && (p.None? ==> t.script == []) && p != Some(Pending)
            && (p == Some(Error) <==> Failing in Used(s, t))
  {
    AwaitEnds(s, bs);
    hide Await;
    var (t, p) := Await(s, bs);
    var used := Used(s, t);
    if p.Some? {
      assert used[|used| - 1] in used;
      if Failing in used {
        var i :| 0 <= i < |used| && used[i] == Failing;
        assert i == |used| - 1;
      }
    }
  }

  /** How the loop ended and why: stuck when the socket never became ready, failed at the first failing answer, else done with the buffer or the budget; and behind the budget at most one write, the last, moves bytes. */
  ghost predicate EndsWell(s: Stream, rest: seq<byte>, total: nat, t: Stream, end: WriteEnd, budget: nat) {
    && |t.socket.script| <= |s.socket.script|
    && (end.Stuck? ==> t.socket.script == [])
    && (end.WriteError? <==> Failing in Used(s.socket, t.socket))
    && (end.Written? ==> end.total == total + |rest| || t.remaining == 0)
    && s.socket.offers <= t.socket.offers
    && (forall i :: |s.socket.offers| <= i < |t.socket.offers| - 1 && t.socket.offers[i].at >= budget ==>
                      t.socket.offers[i].taken == 0)
  }

  lemma PlainWriteEnds(s: Stream, rest: seq<byte>, total: nat, budget: nat)
    requires s.remaining == 0
    ensures var (t, end) := PlainWrite(s, rest, total); EndsWell(s, rest, total, t, end, budget)
  {
    UsedFailure(s.socket, rest);
    AwaitOffers(s.socket, rest);
    hide Await, Used;
  }

  lemma EmptyWriteEnds(s: Stream, budget: nat)
    ensures var (t, end) := PlainWrite(s, [], 0); EndsWell(s, [], 0, t, end, budget)
  {
    UsedFailure(s.socket, []);
    AwaitOffers(s.socket, []);
    AwaitMovesNothing(s.socket);
    hide Await, Used;
  }

  lemma {:induction false} AwaitMovesNothing(s: Socket)
    ensures var p := Await(s, []).1; p.Some? && p.value.Ready? ==> p.value.n == 0
    decreases |s.script|
  {
    if s.script != [] && SocketPoll(s, []).1 == Pending {
      AwaitMovesNothing(SocketPoll(s, []).0);
    }
  }

  /** A turn inside the budget, and what follows it. */
  lemma TurnThenEnd(s: Stream, next: Stream, rest: seq<byte>, total: nat, n: nat, t: Stream, end: WriteEnd, budget: nat)
    requires n <= |rest| && EndsWell(next, rest[n..], total + n, t, end, budget)
    requires |next.socket.script| <= |s.socket.script| && Failing !in Used(s.socket, next.socket)
    requires next.socket.script == s.socket.script[|s.socket.script| - |next.socket.script|..]
    requires s.socket.offers <= next.socket.offers
    requires forall i :: |s.socket.offers| <= i < |next.socket.offers| ==> next.socket.offers[i].at < budget
    ensures EndsWell(s, rest, total, t, end, budget)
  {
    assert Used(s.socket, t.socket) == Used(s.socket, next.socket) + Used(next.socket, t.socket);
    forall i | |s.socket.offers| <= i < |next.socket.offers|
      ensures t.socket.offers[i] == next.socket.offers[i]
    {
    }
  }

  lemma {:induction false} LoopEndsHow(s: Stream, rest: seq<byte>, total: nat, budget: nat)
    requires s.remaining == SaturatingSub(budget, |s.socket.emitted|)
    ensures var (t, end) := FragmentLoop(s, rest, total); EndsWell(s, rest, total, t, end, budget)
    decreases |s.socket.script|
  {
    if rest == [] {
    } else if s.remaining == 0 {
      hide PlainWrite, EndsWell;
      PlainWriteEnds(s, rest, total, budget);
    } else {
      var piece := rest[..ChunkSize(s, |rest|)];
      UsedFailure(s.socket, piece);
      AwaitOffers(s.socket, piece);
      AwaitUsesScript(s.socket, piece);
      hide Await, ChunkSize, Used;
      var (u, p) := Await(s.socket, piece);
      if p.Some? && p.value.Ready? {
        var n := p.value.n;
        var next := Stream(u, SaturatingSub(s.remaining, n), s.size);
        LoopEndsHow(next, rest[n..], total + n, budget);
        LoopUnfolds(s, rest, total, n);
        hide EndsWell, FragmentLoop;
        var (t, end) := FragmentLoop(next, rest[n..], total + n);
        TurnThenEnd(s, next, rest, total, n, t, end, budget);
      }
    }
  }

  /** The same for the whole of `fragmented_write`. */
  lemma FragmentedEndsHow(s: Stream, buf: seq<byte>, budget: nat)
    requires s.remaining == SaturatingSub(budget, |s.socket.emitted|)
    ensures var (t, end) := Fragmented(s, buf); EndsWell(s, buf, 0, t, end, budget)
  {
    hide Await, FragmentLoop, PlainWrite, EndsWell;
    if s.remaining == 0 {
      PlainWriteEnds(s, buf, 0, budget);
    } else if buf == [] {
      EmptyWriteEnds(s, budget);
    } else {
      LoopEndsHow(s, buf, 0, budget);
    }
  }
}
