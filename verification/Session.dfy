/** Both directions of a session, and the two `select!`s that drop what is left when one loop ends. */
module Session {
  import opened Bytes
  import opened SealedBox
  import opened Framing
  import opened TunnelSteps

  /** `up` runs from the client's SOCKS5 socket to the server's target, `down` back again. */
  datatype State = State(up: Direction, down: Direction, client: bool, server: bool)

  datatype Event = Up(step: Step) | Down(step: Step) | ClientSelect | ServerSelect

  function Start(request: seq<byte>, reply: seq<byte>): State {
    State(Initial(request), Initial(reply), true, true)
  }

  predicate OfReceiver(step: Step) {
    step.Take? || step.TakeEof? || step.TakeFault? || step.Deliver? || step.DeliverFault? || step.CancelReceiver?
  }

  /** A loop moves while its process runs; cancellation comes from the selects alone. */
  predicate LoopMoves(d: Direction, step: Step, sending: bool, receiving: bool) {
    && Enabled(d, step) && !step.CancelSender? && !step.CancelReceiver?
    && (OfSender(step) ==> sending)
    && (OfReceiver(step) ==> receiving)
  }

  predicate Possible(s: State, e: Event) {
    match e
    case Up(step) => LoopMoves(s.up, step, s.client, s.server)
    case Down(step) => LoopMoves(s.down, step, s.server, s.client)
    case ClientSelect => s.client && (s.up.sender.Closed? || s.down.receiver.Stopped?)
    case ServerSelect => s.server && (s.down.sender.Closed? || s.up.receiver.Stopped?)
  }

  function DropSender(link: Link, d: Direction): Direction {
    if d.sender.Closed? then d else Apply(link, d, CancelSender)
  }

  function DropReceiver(link: Link, d: Direction): Direction {
    if d.receiver.Stopped? then d else Apply(link, d, CancelReceiver)
  }

  function Next(link: Link, s: State, e: Event): State
    requires Possible(s, e)
  {
    match e
    case Up(step) => s.(up := Apply(link, s.up, step))
    case Down(step) => s.(down := Apply(link, s.down, step))
    case ClientSelect => State(DropSender(link, s.up), DropReceiver(link, s.down), false, s.server)
    case ServerSelect => State(DropReceiver(link, s.up), DropSender(link, s.down), s.client, false)
  }

  predicate IsTrace(link: Link, s: State, events: seq<Event>)
    decreases |events|
  {
    events == [] || (Possible(s, events[0]) && IsTrace(link, Next(link, s, events[0]), events[1..]))
  }

  function Finally(link: Link, s: State, events: seq<Event>): State
    requires IsTrace(link, s, events)
    decreases |events|
  {
    if events == [] then s else Finally(link, Next(link, s, events[0]), events[1..])
  }

  // ---- Safety ------------------------------------------------------------

  ghost predicate SessionInv(link: Link, s: State) { Inv(link, s.up) && Inv(link, s.down) }

  lemma EventKeepsInv(link: Link, s: State, e: Event)
    requires Lawful(link.cipher) && SessionInv(link, s) && Possible(s, e)
    ensures SessionInv(link, Next(link, s, e))
    ensures Source(Next(link, s, e).up) == Source(s.up) && Source(Next(link, s, e).down) == Source(s.down)
  {
    hide Inv, Apply, Payloads;
    match e
    case Up(step) => StepKeepsInv(link, s.up, step);
    case Down(step) => StepKeepsInv(link, s.down, step);
    case ClientSelect => DropKeepsInv(link, s.up); DropKeepsInv(link, s.down);
    case ServerSelect => DropKeepsInv(link, s.up); DropKeepsInv(link, s.down);
  }

  lemma DropKeepsInv(link: Link, d: Direction)
    requires Lawful(link.cipher) && Inv(link, d)
    ensures Inv(link, DropSender(link, d)) && Source(DropSender(link, d)) == Source(d)
    ensures Inv(link, DropReceiver(link, d)) && Source(DropReceiver(link, d)) == Source(d)
  {
    hide Inv, Apply, Payloads;
    if !d.sender.Closed? {
      StepKeepsInv(link, d, CancelSender);
    }
    if !d.receiver.Stopped? {
      StepKeepsInv(link, d, CancelReceiver);
    }
  }

  lemma {:induction false} TraceKeepsInv(link: Link, s: State, events: seq<Event>)
    requires Lawful(link.cipher) && SessionInv(link, s) && IsTrace(link, s, events)
    ensures var t := Finally(link, s, events);
            SessionInv(link, t) && Source(t.up) == Source(s.up) && Source(t.down) == Source(s.down)
    decreases |events|
  {
    hide Inv, Next, Possible, Payloads;
    if events != [] {
      EventKeepsInv(link, s, events[0]);
      TraceKeepsInv(link, Next(link, s, events[0]), events[1..]);
    }
  }

  /** Whatever either process, the network or the selects do, each end holds a prefix of the other's stream. */
  lemma SessionIsSafe(link: Link, request: seq<byte>, reply: seq<byte>, events: seq<Event>)
    requires Lawful(link.cipher) && IsTrace(link, Start(request, reply), events)
    ensures var t := Finally(link, Start(request, reply), events);
            && t.up.taken <= |t.up.sent| && t.down.taken <= |t.down.sent|
            && t.up.output <= Receive(link.cipher, t.up.sent[..t.up.taken]).output <= request
            && t.down.output <= Receive(link.cipher, t.down.sent[..t.down.taken]).output <= reply
  {
    hide Receive, Payloads;
    InitialInv(link, request);
    InitialInv(link, reply);
    TraceKeepsInv(link, Start(request, reply), events);
    var t := Finally(link, Start(request, reply), events);
    InvIsSafe(link, t.up);
    InvIsSafe(link, t.down);
  }

  // ---- The two ends are mirror images -------------------------------------

  function Mirror(s: State): State { State(s.down, s.up, s.server, s.client) }

  function MirrorEvent(e: Event): Event {
    match e
    case Up(step) => Down(step)
    case Down(step) => Up(step)
    case ClientSelect => ServerSelect
    case ServerSelect => ClientSelect
  }

  function MirrorEvents(events: seq<Event>): (r: seq<Event>)
    ensures |r| == |events| && forall i :: 0 <= i < |r| ==> r[i] == MirrorEvent(events[i])
  {
    seq(|events|, i requires 0 <= i < |events| => MirrorEvent(events[i]))
  }

  lemma {:induction false} MirroredTrace(link: Link, s: State, events: seq<Event>)
    requires IsTrace(link, s, events)
    ensures IsTrace(link, Mirror(s), MirrorEvents(events))
    ensures Finally(link, Mirror(s), MirrorEvents(events)) == Mirror(Finally(link, s, events))
    decreases |events|
  {
    hide Enabled, Apply;
    if events != [] {
      MirroredTrace(link, Next(link, s, events[0]), events[1..]);
      assert MirrorEvents(events)[1..] == MirrorEvents(events[1..]);
    }
  }

  // ---- Every session comes to rest -----------------------------------------

  /** A bound on the events still possible. */
  function SessionFuel(s: State): int {
    Fuel(s.up) + Fuel(s.down) + (if s.client then 1 else 0) + (if s.server then 1 else 0)
  }

  lemma DropBurnsNothing(link: Link, d: Direction)
    requires Lawful(link.cipher) && Inv(link, d)
    ensures Fuel(DropSender(link, d)) <= Fuel(d) && Fuel(DropReceiver(link, d)) <= Fuel(d)
  {
    hide Inv, Apply, Fuel;
    if !d.sender.Closed? {
      StepBurnsFuel(link, d, CancelSender);
    }
    if !d.receiver.Stopped? {
      StepBurnsFuel(link, d, CancelReceiver);
    }
  }

  lemma EventBurnsFuel(link: Link, s: State, e: Event)
    requires Lawful(link.cipher) && SessionInv(link, s) && Possible(s, e)
    ensures SessionFuel(Next(link, s, e)) < SessionFuel(s)
  {
    hide Inv, Apply, Fuel;
    match e
    case Up(step) => StepBurnsFuel(link, s.up, step);
    case Down(step) => StepBurnsFuel(link, s.down, step);
    case ClientSelect => DropBurnsNothing(link, s.up); DropBurnsNothing(link, s.down);
    case ServerSelect => DropBurnsNothing(link, s.up); DropBurnsNothing(link, s.down);
  }

  lemma SessionFuelIsNatural(link: Link, s: State)
    requires Lawful(link.cipher) && SessionInv(link, s)
    ensures SessionFuel(s) >= 0
  {
    hide Inv, Fuel;
    FuelIsNatural(link, s.up);
    FuelIsNatural(link, s.down);
  }

  lemma {:induction false} TraceBurnsFuel(link: Link, s: State, events: seq<Event>)
    requires Lawful(link.cipher) && SessionInv(link, s) && IsTrace(link, s, events)
    ensures |events| <= SessionFuel(s) - SessionFuel(Finally(link, s, events))
    decreases |events|
  {
    hide SessionInv, Next, Possible, SessionFuel;
    if events != [] {
      EventKeepsInv(link, s, events[0]);
      EventBurnsFuel(link, s, events[0]);
      TraceBurnsFuel(link, Next(link, s, events[0]), events[1..]);
    }
  }

  lemma StartInv(link: Link, request: seq<byte>, reply: seq<byte>)
    ensures var s := Start(request, reply);
            SessionInv(link, s) && Source(s.up) == request && Source(s.down) == reply
    ensures SessionFuel(Start(request, reply)) == 1001 * (|request| + |reply|) + 8
  {
    InitialInv(link, request);
    InitialInv(link, reply);
  }

  /** No session, whatever fails in it, goes on for longer than this. */
  lemma SessionIsShort(link: Link, request: seq<byte>, reply: seq<byte>, events: seq<Event>)
    requires Lawful(link.cipher) && IsTrace(link, Start(request, reply), events)
    ensures |events| <= 1001 * (|request| + |reply|) + 8
  {
    hide Inv, Fuel, Next;
    var s := Start(request, reply);
    StartInv(link, request, reply);
    TraceBurnsFuel(link, s, events);
    TraceKeepsInv(link, s, events);
    SessionFuelIsNatural(link, Finally(link, s, events));
  }

  // ---- A stopped receiver -----------------------------------------------------

  lemma {:induction false} StoppedForGood(link: Link, s: State, events: seq<Event>)
    requires s.up.receiver.Stopped? && IsTrace(link, s, events)
    ensures Finally(link, s, events).up.output == s.up.output
    decreases |events|
  {
    if events != [] {
      StoppedForGood(link, Next(link, s, events[0]), events[1..]);
    }
  }

  /** The client's select ends the reply where it stands, whatever happens next. */
  lemma SelectFreezesTheReply(link: Link, s: State, events: seq<Event>)
    requires Possible(s, ClientSelect) && IsTrace(link, Next(link, s, ClientSelect), events)
    ensures Finally(link, Next(link, s, ClientSelect), events).down.output == s.down.output
  {
    var t := Next(link, s, ClientSelect);
    MirroredTrace(link, t, events);
    StoppedForGood(link, Mirror(t), MirrorEvents(events));
  }
}
