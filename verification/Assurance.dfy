/** Which runs of a session deliver everything, when nothing fails but what the two `select!`s break themselves. */
module Assurance {
  import opened Bytes
  import opened SealedBox
  import opened Framing
  import opened TunnelSteps
  import opened Session

  // ---- Runs in which nothing fails by itself --------------------------------

  /** Which of the outer ends, the application and the target, close their streams. */
  datatype Ends = Ends(application: bool, target: bool)

  /** What happens without any failure, if these ends close. */
  predicate Ordinary(ends: Ends, e: Event) {
    match e
    case Up(step) => FailureFree(step) && (step.ReadEof? ==> ends.application)
    case Down(step) => FailureFree(step) && (step.ReadEof? ==> ends.target)
    case ClientSelect => true
    case ServerSelect => true
  }

  /** The process reading `d` has gone and has left bytes unread: its host resets the connection (section 4.2.2.13 of RFC 1122). */
  predicate Resets(d: Direction, alive: bool) { !alive && d.taken < |d.sent| }

  /** Failures that a select brings about: a write to a process that has gone, and what a reset destroys of the other direction. */
  predicate Provoked(s: State, e: Event) {
    match e
    case Up(step) =>
      (step.WireFault? && !s.server) || ((step.Cut? || step.TakeFault?) && Resets(s.down, s.client))
    case Down(step) =>
      (step.WireFault? && !s.client) || ((step.Cut? || step.TakeFault?) && Resets(s.up, s.server))
    case ClientSelect => false
    case ServerSelect => false
  }

  /** Every failure in the trace is brought about by a select. */
  predicate Calm(link: Link, ends: Ends, s: State, events: seq<Event>)
    requires IsTrace(link, s, events)
    decreases |events|
  {
    events == [] ||
    ((Ordinary(ends, events[0]) || Provoked(s, events[0])) && Calm(link, ends, Next(link, s, events[0]), events[1..]))
  }

  ghost predicate AtRest(ends: Ends, s: State) {
    forall e :: Ordinary(ends, e) ==> !Possible(s, e)
  }

  ghost predicate FullRun(link: Link, ends: Ends, s: State, events: seq<Event>) {
    IsTrace(link, s, events) && Calm(link, ends, s, events) && AtRest(ends, Finally(link, s, events))
  }

  /** Every such run leaves the target with everything the application sends. */
  ghost predicate UploadAssured(link: Link, ends: Ends, s: State) {
    forall events :: FullRun(link, ends, s, events) ==> Finally(link, s, events).up.output == Source(s.up)
  }

  ghost predicate DownloadAssured(link: Link, ends: Ends, s: State) {
    forall events :: FullRun(link, ends, s, events) ==> Finally(link, s, events).down.output == Source(s.down)
  }

  lemma {:induction false} JoinTraces(link: Link, ends: Ends, s: State, a: seq<Event>, b: seq<Event>)
    requires IsTrace(link, s, a) && Calm(link, ends, s, a)
    requires var t := Finally(link, s, a); IsTrace(link, t, b) && Calm(link, ends, t, b)
    ensures IsTrace(link, s, a + b) && Calm(link, ends, s, a + b)
    ensures Finally(link, s, a + b) == Finally(link, Finally(link, s, a), b)
    decreases |a|
  {
    hide Next, Possible, Ordinary, Provoked;
    if a == [] {
      assert a + b == b;
    } else {
      JoinTraces(link, ends, Next(link, s, a[0]), a[1..], b);
      assert (a + b)[0] == a[0] && (a + b)[1..] == a[1..] + b;
    }
  }

  /** Every state can be run on until it is at rest. */
  lemma {:induction false} RunOn(link: Link, ends: Ends, s: State) returns (events: seq<Event>)
    requires Lawful(link.cipher) && SessionInv(link, s)
    ensures FullRun(link, ends, s, events)
    decreases SessionFuel(s)
  {
    hide SessionInv, Next, Possible, Ordinary, Provoked, SessionFuel;
    if AtRest(ends, s) {
      events := [];
    } else {
      var e :| Ordinary(ends, e) && Possible(s, e);
      EventKeepsInv(link, s, e);
      EventBurnsFuel(link, s, e);
      SessionFuelIsNatural(link, s);
      var more := RunOn(link, ends, Next(link, s, e));
      events := [e] + more;
      assert events[1..] == more;
    }
  }

  // ---- The two ends are mirror images ------------------------------------------

  function Swap(ends: Ends): Ends { Ends(ends.target, ends.application) }

  lemma {:induction false} MirroredCalm(link: Link, ends: Ends, s: State, events: seq<Event>)
    requires IsTrace(link, s, events) && Calm(link, ends, s, events)
    ensures IsTrace(link, Mirror(s), MirrorEvents(events))
    ensures Calm(link, Swap(ends), Mirror(s), MirrorEvents(events))
    decreases |events|
  {
    hide Enabled, Apply;
    if events != [] {
      MirroredCalm(link, ends, Next(link, s, events[0]), events[1..]);
      assert MirrorEvents(events)[1..] == MirrorEvents(events[1..]);
    }
  }

  lemma MirroredFullRun(link: Link, ends: Ends, s: State, events: seq<Event>)
    requires FullRun(link, ends, s, events)
    ensures FullRun(link, Swap(ends), Mirror(s), MirrorEvents(events))
    ensures Finally(link, Mirror(s), MirrorEvents(events)) == Mirror(Finally(link, s, events))
  {
    hide IsTrace, Calm, AtRest;
    MirroredTrace(link, s, events);
    MirroredCalm(link, ends, s, events);
    MirroredRest(ends, Finally(link, s, events));
  }

  lemma MirroredRest(ends: Ends, s: State)
    requires AtRest(ends, s)
    ensures AtRest(Swap(ends), Mirror(s))
  {
    hide Enabled;
    forall e | Ordinary(Swap(ends), e)
      ensures !Possible(Mirror(s), e)
    {
      assert Ordinary(ends, MirrorEvent(e)) && !Possible(s, MirrorEvent(e));
    }
  }

  lemma MirrorAssured(link: Link, ends: Ends, s: State)
    ensures DownloadAssured(link, ends, s) <==> UploadAssured(link, Swap(ends), Mirror(s))
  {
    hide IsTrace, Calm, AtRest, Source;
    if UploadAssured(link, Swap(ends), Mirror(s)) {
      forall events | FullRun(link, ends, s, events)
        ensures Finally(link, s, events).down.output == Source(s.down)
      {
        MirroredFullRun(link, ends, s, events);
      }
    }
    if DownloadAssured(link, ends, s) {
      forall events | FullRun(link, Swap(ends), Mirror(s), events)
        ensures Finally(link, Mirror(s), events).up.output == Source(Mirror(s).up)
      {
        MirroredFullRun(link, Swap(ends), Mirror(s), events);
      }
    }
  }

  // ---- Continuations -----------------------------------------------------------

  /** A calm start that leads to a state in which the upload can still fail. */
  lemma NotAssuredFrom(link: Link, ends: Ends, s: State, events: seq<Event>)
    requires Lawful(link.cipher) && SessionInv(link, s)
    requires IsTrace(link, s, events) && Calm(link, ends, s, events)
    requires !UploadAssured(link, ends, Finally(link, s, events))
    ensures !UploadAssured(link, ends, s)
  {
    hide SessionInv, Calm, IsTrace, AtRest, Payloads;
    var t := Finally(link, s, events);
    TraceKeepsInv(link, s, events);
    var more :| FullRun(link, ends, t, more) && Finally(link, t, more).up.output != Source(t.up);
    JoinTraces(link, ends, s, events, more);
    assert FullRun(link, ends, s, events + more);
  }

  lemma StoppedShort(link: Link, ends: Ends, s: State)
    requires Lawful(link.cipher) && SessionInv(link, s)
    requires s.up.receiver.Stopped? && s.up.output != Source(s.up)
    ensures !UploadAssured(link, ends, s)
  {
    hide SessionInv, Payloads;
    var events := RunOn(link, ends, s);
    StoppedForGood(link, s, events);
  }

  // ---- What a select can leave behind, if the target stays open ----------------

  /** Who can have stopped, and why. */
  predicate Accounted(s: State) {
    && (s.client ==>
          && Clean(s.up) && !s.down.cut
          && (s.down.sender.Closed? ==> !s.server)
          && (s.down.receiver.Stopped? ==> s.down.sender.Closed?))
    && (!s.server ==> s.up.receiver.Stopped? && s.down.sender.Closed?)
    && (!s.client ==>
          && s.up.sender.Closed? && s.down.receiver.Stopped?
          && (Clean(s.up) || !s.server || Resets(s.down, s.client)))
  }

  lemma GoneLoopsEnded(s: State)
    requires Accounted(s)
    ensures !s.client ==> s.up.sender.Closed? && s.down.receiver.Stopped?
    ensures !s.server ==> s.up.receiver.Stopped? && s.down.sender.Closed?
    ensures s.client && s.down.receiver.Stopped? ==> s.down.sender.Closed?
  {}

  lemma EventKeepsAccounted(link: Link, ends: Ends, s: State, e: Event)
    requires Lawful(link.cipher) && SessionInv(link, s) && Accounted(s) && !ends.target
    requires Possible(s, e) && (Ordinary(ends, e) || Provoked(s, e))
    ensures Accounted(Next(link, s, e))
  {
    hide Inv, Absorb, DataRecord;
    match e
    case Up(step) =>
      if Clean(s.up) && FailureFree(step) {
        FailureFreeStep(link, s.up, step);
      }
    case Down(step) =>
      if step.Take? {
        TakeStopsNothing(link, s.down, step.k);
      }
    case ClientSelect =>
    case ServerSelect =>
  }

  lemma {:induction false} TraceKeepsAccounted(link: Link, ends: Ends, s: State, events: seq<Event>)
    requires Lawful(link.cipher) && SessionInv(link, s) && Accounted(s) && !ends.target
    requires IsTrace(link, s, events) && Calm(link, ends, s, events)
    ensures Accounted(Finally(link, s, events))
    decreases |events|
  {
    hide Inv, Next, Possible, Ordinary, Provoked, Accounted;
    if events != [] {
      EventKeepsInv(link, s, events[0]);
      EventKeepsAccounted(link, ends, s, events[0]);
      TraceKeepsAccounted(link, ends, Next(link, s, events[0]), events[1..]);
    }
  }

  /** Nothing is left on the way down that a select could turn into a failure of the upload. */
  predicate Harmless(s: State) {
    && Accounted(s) && Clean(s.up)
    && s.down.todo == [] && s.down.taken == |s.down.sent|
    && (s.server ==> s.down.sender.Reading?)
  }

  lemma EventKeepsHarmless(link: Link, ends: Ends, s: State, e: Event)
    requires Lawful(link.cipher) && SessionInv(link, s) && Harmless(s) && !ends.target
    requires Possible(s, e) && (Ordinary(ends, e) || Provoked(s, e))
    ensures Harmless(Next(link, s, e))
  {
    hide Inv, Absorb, DataRecord, Accounted;
    EventKeepsAccounted(link, ends, s, e);
    GoneLoopsEnded(s);
    match e
    case Up(step) =>
      if FailureFree(step) {
        FailureFreeStep(link, s.up, step);
      }
    case Down(step) =>
    case ClientSelect =>
    case ServerSelect =>
  }

  lemma RestIsDrained(link: Link, ends: Ends, s: State)
    requires AtRest(ends, s)
    requires !s.client ==> s.up.sender.Closed?
    requires !s.server ==> s.up.receiver.Stopped?
    ensures Drained(s.up)
  {
    forall step | FailureFree(step) && !step.ReadEof?
      ensures !Enabled(s.up, step)
    {
      assert Ordinary(ends, Up(step)) && !Possible(s, Up(step));
    }
  }

  lemma {:induction false} HarmlessIsAssured(link: Link, ends: Ends, s: State, events: seq<Event>)
    requires Lawful(link.cipher) && SessionInv(link, s) && Harmless(s) && !ends.target
    requires FullRun(link, ends, s, events)
    ensures Finally(link, s, events).up.output == Source(s.up)
    decreases |events|
  {
    hide Inv, Next, Possible, Ordinary, Provoked, Payloads, Accounted, Clean, AtRest;
    if events == [] {
      GoneLoopsEnded(s);
      RestIsDrained(link, ends, s);
      DrainedIsComplete(link, s.up);
    } else {
      EventKeepsInv(link, s, events[0]);
      EventKeepsHarmless(link, ends, s, events[0]);
      HarmlessIsAssured(link, ends, Next(link, s, events[0]), events[1..]);
    }
  }

  /** With no failure at all, only its own end stops the server's upload. */
  predicate Unprovoked(s: State) {
    Accounted(s) && Clean(s.up) && (s.server ==> !s.down.sender.Closed?)
  }

  lemma {:induction false} UnprovokedIsComplete(link: Link, ends: Ends, s: State, events: seq<Event>)
    requires Lawful(link.cipher) && SessionInv(link, s) && Unprovoked(s) && !ends.target
    requires IsTrace(link, s, events) && AtRest(ends, Finally(link, s, events))
    requires forall i :: 0 <= i < |events| ==> Ordinary(ends, events[i])
    ensures Finally(link, s, events).up.output == Source(s.up)
    decreases |events|
  {
    hide Inv, Next, Possible, Ordinary, Provoked, Payloads, Accounted, Clean, AtRest;
    if events == [] {
      GoneLoopsEnded(s);
      RestIsDrained(link, ends, s);
      DrainedIsComplete(link, s.up);
    } else {
      EventKeepsInv(link, s, events[0]);
      OrdinaryKeepsUnprovoked(link, ends, s, events[0]);
      UnprovokedIsComplete(link, ends, Next(link, s, events[0]), events[1..]);
    }
  }

  lemma OrdinaryKeepsUnprovoked(link: Link, ends: Ends, s: State, e: Event)
    requires Lawful(link.cipher) && SessionInv(link, s) && Unprovoked(s) && !ends.target
    requires Possible(s, e) && Ordinary(ends, e)
    ensures Unprovoked(Next(link, s, e))
  {
    hide Inv, Absorb, DataRecord, Accounted;
    EventKeepsAccounted(link, ends, s, e);
    GoneLoopsEnded(s);
    if e.Up? {
      FailureFreeStep(link, s.up, e.step);
    }
  }

  /** While the target stays open and nothing fails, not even a write to a process that has gone, every run to the end delivers the request. */
  lemma UploadIsComplete(link: Link, request: seq<byte>, reply: seq<byte>, ends: Ends, events: seq<Event>)
    requires Lawful(link.cipher) && !ends.target
    requires IsTrace(link, Start(request, reply), events) && AtRest(ends, Finally(link, Start(request, reply), events))
    requires forall i :: 0 <= i < |events| ==> Ordinary(ends, events[i])
    ensures Finally(link, Start(request, reply), events).up.output == request
  {
    hide SessionInv, IsTrace, AtRest, Ordinary, Payloads;
    StartInv(link, request, reply);
    UnprovokedIsComplete(link, ends, Start(request, reply), events);
  }

  /** The mirror image for the reply. */
  lemma DownloadIsComplete(link: Link, request: seq<byte>, reply: seq<byte>, ends: Ends, events: seq<Event>)
    requires Lawful(link.cipher) && !ends.application
    requires IsTrace(link, Start(request, reply), events) && AtRest(ends, Finally(link, Start(request, reply), events))
    requires forall i :: 0 <= i < |events| ==> Ordinary(ends, events[i])
    ensures Finally(link, Start(request, reply), events).down.output == reply
  {
    hide IsTrace, AtRest, Finally;
    MirroredTrace(link, Start(request, reply), events);
    MirroredRest(ends, Finally(link, Start(request, reply), events));
    UploadIsComplete(link, reply, request, Swap(ends), MirrorEvents(events));
  }

  /** The target has the request but for one write, which nothing can stop. */
  predicate AllButWritten(s: State) {
    !s.client
    && (s.up.output == Source(s.up)
        || (s.up.receiver.Delivering? && s.up.output + s.up.receiver.pending == Source(s.up)
            && s.server && s.down.sender.Reading? && s.down.todo == []))
  }

  lemma OutputGrows(link: Link, d: Direction, step: Step)
    requires Enabled(d, step)
    ensures d.output <= Apply(link, d, step).output
  {
    hide Absorb, DataRecord;
  }

  lemma DropKeepsOutput(link: Link, d: Direction)
    ensures DropSender(link, d).output == DropReceiver(link, d).output == d.output
  {}

  lemma EventKeepsOutput(link: Link, s: State, e: Event)
    requires Lawful(link.cipher) && SessionInv(link, s) && Possible(s, e)
    requires s.up.output == Source(s.up)
    ensures Next(link, s, e).up.output == Source(s.up)
  {
    hide Inv, Payloads, Enabled, Apply, Receive;
    var t := Next(link, s, e);
    EventKeepsInv(link, s, e);
    InvIsSafe(link, t.up);
    match e
    case Up(step) => OutputGrows(link, s.up, step);
    case Down(step) =>
    case ClientSelect => DropKeepsOutput(link, s.up);
    case ServerSelect => DropKeepsOutput(link, s.up);
  }

  lemma EventKeepsAllButWritten(link: Link, ends: Ends, s: State, e: Event)
    requires Lawful(link.cipher) && SessionInv(link, s) && AllButWritten(s) && !ends.target
    requires Possible(s, e) && (Ordinary(ends, e) || Provoked(s, e))
    ensures AllButWritten(Next(link, s, e))
  {
    hide Inv, Payloads, Absorb, DataRecord;
    EventKeepsInv(link, s, e);
    if s.up.output == Source(s.up) {
      EventKeepsOutput(link, s, e);
    } else if e.Up? && e.step.Deliver? {
      var k, pending := e.step.k, s.up.receiver.pending;
      assert pending == pending[..k] + pending[k..];
      Assoc(s.up.output, pending[..k], pending[k..]);
    }
  }

  lemma {:induction false} AllButWrittenIsAssured(link: Link, ends: Ends, s: State, events: seq<Event>)
    requires Lawful(link.cipher) && SessionInv(link, s) && AllButWritten(s) && !ends.target
    requires FullRun(link, ends, s, events)
    ensures Finally(link, s, events).up.output == Source(s.up)
    decreases |events|
  {
    hide Inv, Next, Provoked, Payloads, Apply;
    if events == [] {
      assert Ordinary(ends, Up(Deliver(1))) && !Possible(s, Up(Deliver(1)));
      assert s.up.output + [] == s.up.output;
    } else {
      hide AllButWritten, Possible, AtRest, Ordinary;
      EventKeepsInv(link, s, events[0]);
      EventKeepsAllButWritten(link, ends, s, events[0]);
      AllButWrittenIsAssured(link, ends, Next(link, s, events[0]), events[1..]);
    }
  }

  // ---- When the request is assured after the client has gone --------------------

  lemma OneEvent(link: Link, ends: Ends, s: State, e: Event)
    requires Lawful(link.cipher) && SessionInv(link, s)
    requires Possible(s, e) && (Ordinary(ends, e) || Provoked(s, e))
    requires !UploadAssured(link, ends, Next(link, s, e))
    ensures !UploadAssured(link, ends, s)
  {
    hide SessionInv, Possible, Next, Ordinary, Provoked, UploadAssured;
    assert Finally(link, Next(link, s, e), [e][1..]) == Next(link, s, e);
    NotAssuredFrom(link, ends, s, [e]);
  }

  /** The server's select drops an upload that is not through. */
  lemma LostByServerSelect(link: Link, ends: Ends, s: State)
    requires Lawful(link.cipher) && SessionInv(link, s)
    requires s.server && s.down.sender.Closed? && s.up.output != Source(s.up)
    ensures !UploadAssured(link, ends, s)
  {
    hide Inv, Payloads, UploadAssured;
    EventKeepsInv(link, s, ServerSelect);
    StoppedShort(link, ends, Next(link, s, ServerSelect));
    OneEvent(link, ends, s, ServerSelect);
  }

  /** The server finds the client gone as it writes, and its select then drops the upload. */
  lemma LostByWrite(link: Link, ends: Ends, s: State)
    requires Lawful(link.cipher) && SessionInv(link, s)
    requires !s.client && s.server && s.up.output != Source(s.up)
    requires s.down.sender.Flushing? || (s.down.sender.Reading? && s.down.todo != [])
    ensures !UploadAssured(link, ends, s)
    decreases if s.down.sender.Reading? then 1 else 0
  {
    hide Inv, Payloads, UploadAssured, DataRecord;
    var nonce: Nonce := seq(NONCE_SIZE, _ => 0);
    var e := if s.down.sender.Reading? then Down(ReadChunk(1, [], nonce)) else Down(WireFault);
    EventKeepsInv(link, s, e);
    if s.down.sender.Reading? {
      LostByWrite(link, ends, Next(link, s, e));
    } else {
      LostByServerSelect(link, ends, Next(link, s, e));
    }
    OneEvent(link, ends, s, e);
  }

  /** Bytes the client left unread reset the connection before the request is through. */
  lemma LostByReset(link: Link, ends: Ends, s: State)
    requires Lawful(link.cipher) && SessionInv(link, s)
    requires s.server && !s.up.receiver.Stopped? && Resets(s.down, s.client)
    requires s.up.output + Pending(s.up) != Source(s.up)
    ensures !UploadAssured(link, ends, s)
    decreases if s.up.receiver.Delivering? then 1 else 0
  {
    hide Inv, Payloads, UploadAssured, Absorb, DataRecord;
    if s.up.receiver.Delivering? {
      var e := Up(Deliver(|s.up.receiver.pending|));
      PendingIsSome(link, s.up);
      EventKeepsInv(link, s, e);
      assert s.up.receiver.pending[..|s.up.receiver.pending|] == s.up.receiver.pending;
      assert s.up.output + Pending(s.up) + [] == s.up.output + Pending(s.up);
      LostByReset(link, ends, Next(link, s, e));
      OneEvent(link, ends, s, e);
    } else {
      assert s.up.output + [] == s.up.output;
      EventKeepsInv(link, s, Up(TakeFault));
      StoppedShort(link, ends, Next(link, s, Up(TakeFault)));
      OneEvent(link, ends, s, Up(TakeFault));
    }
  }

  lemma PendingIsSome(link: Link, d: Direction)
    requires Inv(link, d) && d.receiver.Delivering?
    ensures d.receiver.pending != []
  {
    hide Wire, Payloads, DataRecord;
  }

  /** With the client gone and the target open, this is all that keeps the request safe. */
  predicate Through(s: State) {
    || s.up.output == Source(s.up)
    || (s.down.sender.Reading? && s.down.todo == []
        && (s.down.taken == |s.down.sent| || s.up.output + Pending(s.up) == Source(s.up)))
  }

  lemma ThroughIsAssured(link: Link, ends: Ends, s: State)
    requires Lawful(link.cipher) && SessionInv(link, s) && Accounted(s) && !s.client && !ends.target
    ensures Through(s) ==> UploadAssured(link, ends, s)
  {
    hide Inv, Payloads, IsTrace, Calm, AtRest;
    assert s.up.output + [] == s.up.output;
    if Through(s) {
      forall events | FullRun(link, ends, s, events)
        ensures Finally(link, s, events).up.output == Source(s.up)
      {
        if AllButWritten(s) {
          AllButWrittenIsAssured(link, ends, s, events);
        } else {
          HarmlessIsAssured(link, ends, s, events);
        }
      }
    }
  }

  /** From any state a calm run reaches after the client's select: the request will be complete in every continuation if and only if nothing is left to write on the way down, and the rest of the request is being written or nothing on the way down was left unread. */
  lemma AssuredAfterSelect(link: Link, request: seq<byte>, reply: seq<byte>, ends: Ends, events: seq<Event>)
    requires Lawful(link.cipher) && !ends.target
    requires IsTrace(link, Start(request, reply), events) && Calm(link, ends, Start(request, reply), events)
    requires !Finally(link, Start(request, reply), events).client
    ensures var s := Finally(link, Start(request, reply), events);
            UploadAssured(link, ends, s) <==> Through(s)
  {
    hide Inv, IsTrace, Calm, Payloads, UploadAssured;
    StartInv(link, request, reply);
    TraceKeepsInv(link, Start(request, reply), events);
    TraceKeepsAccounted(link, ends, Start(request, reply), events);
    AccountedDecides(link, ends, Finally(link, Start(request, reply), events));
  }

  lemma AccountedDecides(link: Link, ends: Ends, s: State)
    requires Lawful(link.cipher) && SessionInv(link, s) && Accounted(s) && !s.client && !ends.target
    ensures UploadAssured(link, ends, s) <==> Through(s)
  {
    hide Inv, Payloads, UploadAssured;
    ThroughIsAssured(link, ends, s);
    if !Through(s) {
      if s.up.receiver.Stopped? {
        StoppedShort(link, ends, s);
      } else if s.down.sender.Closed? {
        LostByServerSelect(link, ends, s);
      } else if s.down.sender.Flushing? || s.down.todo != [] {
        LostByWrite(link, ends, s);
      } else {
        InvIsSafe(link, s.down);
        LostByReset(link, ends, s);
      }
    }
  }

  // ---- When the request is assured from the start -------------------------------

  /** The client's loop reads and writes out all the application has to send. */
  lemma {:induction false} FlushAll(link: Link, ends: Ends, s: State) returns (events: seq<Event>)
    requires s.client && s.up.sender.Reading?
    ensures IsTrace(link, s, events) && Calm(link, ends, s, events)
    ensures forall i :: 0 <= i < |events| ==> Ordinary(ends, events[i])
    ensures var t := Finally(link, s, events);
            && t == s.(up := t.up) && t.up.todo == [] && t.up.sender.Reading?
            && t.up.receiver == s.up.receiver && t.up.output == s.up.output
    decreases |s.up.todo|
  {
    hide DataRecord, Absorb, Provoked;
    if s.up.todo == [] {
      events := [];
    } else {
      var read := Up(ReadChunk(1, [], seq(NONCE_SIZE, _ => 0)));
      var t := Next(link, s, read);
      var write := Up(WireWrite(|t.up.sender.outbox|));
      RecordIsSome(link, t.up.sends[|t.up.sends| - 1]);
      var more := FlushAll(link, ends, Next(link, t, write));
      assert ([write] + more)[1..] == more;
      assert ([read] + ([write] + more))[1..] == [write] + more;
      events := [read] + ([write] + more);
    }
  }

  lemma RecordIsSome(link: Link, s: Send)
    ensures DataRecord(link, s) != []
  {}

  /** With both outer ends open, no loop ends. */
  predicate Undisturbed(s: State) {
    && s.client && s.server
    && Clean(s.up) && !s.up.sender.Closed? && !s.up.receiver.Stopped?
    && Clean(s.down) && !s.down.sender.Closed? && !s.down.receiver.Stopped?
  }

  lemma EventKeepsUndisturbed(link: Link, s: State, e: Event)
    requires Lawful(link.cipher) && SessionInv(link, s) && Undisturbed(s)
    requires Possible(s, e) && (Ordinary(Ends(false, false), e) || Provoked(s, e))
    ensures Undisturbed(Next(link, s, e))
  {
    hide Inv, Absorb, DataRecord;
    var d := if e.Up? then s.up else s.down;
    if (e.Up? || e.Down?) && e.step.Take? {
      TakeStopsNothing(link, d, e.step.k);
    }
  }

  lemma {:induction false} UndisturbedIsAssured(link: Link, s: State, events: seq<Event>)
    requires Lawful(link.cipher) && SessionInv(link, s) && Undisturbed(s)
    requires FullRun(link, Ends(false, false), s, events)
    ensures Finally(link, s, events).up.output == Source(s.up)
    decreases |events|
  {
    hide Inv, Next, Possible, Ordinary, Provoked, Payloads, Clean, AtRest;
    if events == [] {
      RestIsDrained(link, Ends(false, false), s);
      DrainedIsComplete(link, s.up);
    } else {
      EventKeepsInv(link, s, events[0]);
      EventKeepsUndisturbed(link, s, events[0]);
      UndisturbedIsAssured(link, Next(link, s, events[0]), events[1..]);
    }
  }

  lemma NothingToLose(link: Link, ends: Ends, s: State)
    requires Lawful(link.cipher) && SessionInv(link, s) && Source(s.up) == []
    ensures UploadAssured(link, ends, s)
  {
    hide Inv, IsTrace, Calm, AtRest, Payloads, Receive;
    forall events | FullRun(link, ends, s, events)
      ensures Finally(link, s, events).up.output == Source(s.up)
    {
      TraceKeepsInv(link, s, events);
      InvIsSafe(link, Finally(link, s, events).up);
    }
  }

  lemma UploadSurvives(link: Link, request: seq<byte>, reply: seq<byte>, ends: Ends)
    requires Lawful(link.cipher) && !ends.target && (!ends.application || reply == [])
    ensures UploadAssured(link, ends, Start(request, reply))
  {
    hide Inv, IsTrace, Calm, AtRest, Payloads;
    var s := Start(request, reply);
    StartInv(link, request, reply);
    forall events | FullRun(link, ends, s, events)
      ensures Finally(link, s, events).up.output == Source(s.up)
    {
      if reply == [] {
        HarmlessIsAssured(link, ends, s, events);
      } else {
        UndisturbedIsAssured(link, s, events);
      }
    }
  }

  /** The application closes once it has sent its request; the client's select then leaves the server writing to nobody. */
  lemma LostByOwnClose(link: Link, request: seq<byte>, reply: seq<byte>, ends: Ends)
    requires Lawful(link.cipher) && ends.application && !ends.target && request != [] && reply != []
    ensures !UploadAssured(link, ends, Start(request, reply))
  {
    hide Inv, Calm, UploadAssured, Payloads, Enabled;
    var s := Start(request, reply);
    StartInv(link, request, reply);
    var events := FlushAll(link, ends, s);
    TraceKeepsInv(link, s, events);
    var t := Finally(link, s, events);
    TraceKeepsAccounted(link, ends, s, events);
    ClosesAndSelects(link, ends, t);
    NotAssuredFrom(link, ends, s, events);
  }

  lemma ClosesAndSelects(link: Link, ends: Ends, t: State)
    requires Lawful(link.cipher) && SessionInv(link, t) && Accounted(t) && t.client && t.server
    requires ends.application && !ends.target
    requires t.up.sender.Reading? && t.up.todo == []
    requires t.up.output != Source(t.up) && t.down.todo != []
    ensures !UploadAssured(link, ends, t)
  {
    hide Inv, UploadAssured, Payloads;
    var u := Next(link, t, Up(ReadEof));
    EventKeepsInv(link, t, Up(ReadEof));
    EventKeepsAccounted(link, ends, t, Up(ReadEof));
    EventKeepsInv(link, u, ClientSelect);
    EventKeepsAccounted(link, ends, u, ClientSelect);
    AccountedDecides(link, ends, Next(link, u, ClientSelect));
    OneEvent(link, ends, u, ClientSelect);
    OneEvent(link, ends, t, Up(ReadEof));
  }

  /** The target closes once it has replied; the server's select drops the upload where it stands. */
  lemma LostByTargetClose(link: Link, request: seq<byte>, reply: seq<byte>, ends: Ends)
    requires Lawful(link.cipher) && ends.target && request != []
    ensures !UploadAssured(link, ends, Start(request, reply))
  {
    hide Inv, Calm, UploadAssured, Payloads, Enabled;
    var s := Start(request, reply);
    StartInv(link, request, reply);
    var mirrored := FlushAll(link, Swap(ends), Mirror(s));
    var events := MirrorEvents(mirrored);
    MirroredTrace(link, Mirror(s), mirrored);
    MirroredCalm(link, Swap(ends), Mirror(s), mirrored);
    TraceKeepsInv(link, s, events);
    TargetClosesAndSelects(link, ends, Finally(link, s, events));
    NotAssuredFrom(link, ends, s, events);
  }

  lemma TargetClosesAndSelects(link: Link, ends: Ends, t: State)
    requires Lawful(link.cipher) && SessionInv(link, t) && t.server && ends.target
    requires t.down.sender.Reading? && t.down.todo == [] && t.up.output != Source(t.up)
    ensures !UploadAssured(link, ends, t)
  {
    hide Inv, UploadAssured, Payloads;
    EventKeepsInv(link, t, Down(ReadEof));
    LostByServerSelect(link, ends, Next(link, t, Down(ReadEof)));
    OneEvent(link, ends, t, Down(ReadEof));
  }

  /** Nothing fails by itself, and every run is taken to its end: the whole request reaches the target in all of them if and only if there is none, or the target keeps its stream open and either the application does too or there is no reply to write. */
  lemma UploadIsAssured(link: Link, request: seq<byte>, reply: seq<byte>, ends: Ends)
    requires Lawful(link.cipher)
    ensures UploadAssured(link, ends, Start(request, reply)) <==>
            request == [] || (!ends.target && (!ends.application || reply == []))
  {
    hide UploadAssured, SessionInv, Source;
    if request == [] {
      StartInv(link, request, reply);
      NothingToLose(link, ends, Start(request, reply));
    } else if ends.target {
      LostByTargetClose(link, request, reply, ends);
    } else if ends.application && reply != [] {
      LostByOwnClose(link, request, reply, ends);
    } else {
      UploadSurvives(link, request, reply, ends);
    }
  }

  /** The mirror image for the reply. */
  lemma DownloadIsAssured(link: Link, request: seq<byte>, reply: seq<byte>, ends: Ends)
    requires Lawful(link.cipher)
    ensures DownloadAssured(link, ends, Start(request, reply)) <==>
            reply == [] || (!ends.application && (!ends.target || request == []))
  {
    hide UploadAssured, DownloadAssured;
    MirrorAssured(link, ends, Start(request, reply));
    UploadIsAssured(link, reply, request, Swap(ends));
  }

  /** The server's next write meets a closed connection, and its select drops the upload. */
  lemma ServerFindsClientGone(link: Link, s: State) returns (events: seq<Event>)
    requires !s.client && s.server && !s.up.receiver.Stopped?
    requires s.down.sender.Reading? && s.down.todo != []
    ensures IsTrace(link, s, events) && Calm(link, Ends(true, false), s, events)
    ensures var t := Finally(link, s, events); t.up.receiver.Stopped? && t.up.output == s.up.output
  {
    hide IsTrace, Calm, DataRecord, Absorb, Finally;
    var ends := Ends(true, false);
    var read := Down(ReadChunk(1, [], seq(NONCE_SIZE, _ => 0)));
    var t := Next(link, s, read);
    var u := Next(link, t, Down(WireFault));
    events := NoEvents(link, ends, Next(link, u, ServerSelect));
    events := FirstEvent(link, ends, u, ServerSelect, events);
    events := FirstEvent(link, ends, t, Down(WireFault), events);
    events := FirstEvent(link, ends, s, read, events);
  }

  /** The client's loop ends by end of file, and its select leaves the server alone. */
  lemma SelectsInTurn(link: Link, s: State) returns (events: seq<Event>)
    requires s.client && s.server && s.up.sender.Reading? && s.up.todo == [] && !s.up.receiver.Stopped?
    requires s.down.sender.Reading? && s.down.todo != []
    ensures IsTrace(link, s, events) && Calm(link, Ends(true, false), s, events)
    ensures var t := Finally(link, s, events); t.up.receiver.Stopped? && t.up.output == s.up.output
  {
    hide IsTrace, Calm, DataRecord, Absorb, Finally;
    var ends := Ends(true, false);
    var t := Next(link, s, Up(ReadEof));
    events := ServerFindsClientGone(link, Next(link, t, ClientSelect));
    events := FirstEvent(link, ends, t, ClientSelect, events);
    events := FirstEvent(link, ends, s, Up(ReadEof), events);
  }

  lemma NoEvents(link: Link, ends: Ends, s: State) returns (events: seq<Event>)
    ensures IsTrace(link, s, events) && Calm(link, ends, s, events) && Finally(link, s, events) == s
  {
    events := [];
  }

  lemma FirstEvent(link: Link, ends: Ends, s: State, e: Event, more: seq<Event>) returns (events: seq<Event>)
    requires Possible(s, e) && (Ordinary(ends, e) || Provoked(s, e))
    requires IsTrace(link, Next(link, s, e), more) && Calm(link, ends, Next(link, s, e), more)
    ensures IsTrace(link, s, events) && Calm(link, ends, s, events)
    ensures Finally(link, s, events) == Finally(link, Next(link, s, e), more)
  {
    hide Possible, Next, Ordinary, Provoked;
    events := [e] + more;
    assert events[1..] == more;
  }

  /** The selects alone can lose the entire request, whatever it is, as soon as there is a reply. */
  lemma SelectsLoseTheRequest(link: Link, request: seq<byte>, reply: seq<byte>) returns (events: seq<Event>)
    requires Lawful(link.cipher) && reply != []
    ensures FullRun(link, Ends(true, false), Start(request, reply), events)
    ensures Finally(link, Start(request, reply), events).up.output == []
  {
    hide Inv, IsTrace, Calm, AtRest, Payloads, Enabled;
    var ends, s := Ends(true, false), Start(request, reply);
    StartInv(link, request, reply);
    var flush := FlushAll(link, ends, s);
    var t := Finally(link, s, flush);
    var selects := SelectsInTurn(link, t);
    JoinTraces(link, ends, s, flush, selects);
    TraceKeepsInv(link, s, flush + selects);
    var u := Finally(link, s, flush + selects);
    var rest := RunOn(link, ends, u);
    StoppedForGood(link, u, rest);
    JoinTraces(link, ends, s, flush + selects, rest);
    events := flush + selects + rest;
  }

  /** Likewise the reply, if the target closes after it and the application goes on sending. */
  lemma SelectsLoseTheReply(link: Link, request: seq<byte>, reply: seq<byte>) returns (events: seq<Event>)
    requires Lawful(link.cipher) && request != []
    ensures FullRun(link, Ends(false, true), Start(request, reply), events)
    ensures Finally(link, Start(request, reply), events).down.output == []
  {
    hide FullRun, Finally;
    var mirrored := SelectsLoseTheRequest(link, reply, request);
    MirroredFullRun(link, Ends(true, false), Start(reply, request), mirrored);
    events := MirrorEvents(mirrored);
  }

  /** Not only can it be lost: for every request and reply, an application that closes after its request can have the client's select fire with nothing failed, and then no byte of the reply ever arrives. */
  lemma HalfCloseLosesTheReply(link: Link, request: seq<byte>, reply: seq<byte>) returns (events: seq<Event>)
    ensures IsTrace(link, Start(request, reply), events)
    ensures forall i :: 0 <= i < |events| ==> Ordinary(Ends(true, false), events[i])
    ensures var s := Finally(link, Start(request, reply), events);
            && Possible(s, ClientSelect)
            && forall later :: IsTrace(link, Next(link, s, ClientSelect), later) ==>
                 Finally(link, Next(link, s, ClientSelect), later).down.output == []
  {
    var s := Start(request, reply);
    var flush := FlushAll(link, Ends(true, false), s);
    var t := Finally(link, s, flush);
    assert [Up(ReadEof)][1..] == [];
    JoinTraces(link, Ends(true, false), s, flush, [Up(ReadEof)]);
    events := flush + [Up(ReadEof)];
    var u := Finally(link, s, events);
    assert u == Next(link, t, Up(ReadEof));
    forall later | IsTrace(link, Next(link, u, ClientSelect), later)
      ensures Finally(link, Next(link, u, ClientSelect), later).down.output == []
    {
      SelectFreezesTheReply(link, u, later);
    }
  }

  // ---- A session that one end closes is over on both sides ------------------------

  /** A process that has gone has dropped both its loops. */
  predicate GoneIsStill(s: State) {
    && (!s.client ==> s.up.sender.Closed? && s.down.receiver.Stopped?)
    && (!s.server ==> s.down.sender.Closed? && s.up.receiver.Stopped?)
  }

  lemma {:induction false} TraceKeepsGone(link: Link, s: State, events: seq<Event>)
    requires GoneIsStill(s) && IsTrace(link, s, events)
    ensures GoneIsStill(Finally(link, s, events))
    decreases |events|
  {
    if events != [] {
      EventKeepsGone(link, s, events[0]);
      hide Next, Possible, GoneIsStill;
      TraceKeepsGone(link, Next(link, s, events[0]), events[1..]);
    }
  }

  lemma EventKeepsGone(link: Link, s: State, e: Event)
    requires GoneIsStill(s) && Possible(s, e)
    ensures GoneIsStill(Next(link, s, e))
  {
    hide DataRecord, Absorb;
  }

  /** At rest, a send loop whose source has ended is over. */
  lemma SenderIsOver(link: Link, ends: Ends, s: State)
    requires Inv(link, s.up) && AtRest(ends, s) && ends.application
    requires s.client || s.up.sender.Closed?
    ensures s.up.sender.Closed?
  {
    hide Wire, Payloads, DataRecord;
    var d, nonce: Nonce := s.up, seq(NONCE_SIZE, _ => 0);
    assert !Possible(s, Up(ReadEof)) && !Possible(s, Up(WireWrite(1)));
    assert !Possible(s, Up(ReadChunk(1, [], nonce)));
  }

  /** At rest, a receive loop whose sender is over has seen the end of its input. */
  lemma ReceiverIsOver(link: Link, ends: Ends, s: State)
    requires Inv(link, s.up) && AtRest(ends, s)
    requires s.up.sender.Closed? && (s.server || s.up.receiver.Stopped?)
    ensures s.up.receiver.Stopped?
  {
    hide Wire, Payloads, DataRecord;
    assert !Possible(s, Up(Arrive(1))) && !Possible(s, Up(Take(1)));
    assert !Possible(s, Up(TakeEof)) && !Possible(s, Up(Deliver(1)));
  }

  /** Once the client has gone, and nothing more can happen, so has the server. */
  lemma ServerFollows(link: Link, ends: Ends, s: State)
    requires SessionInv(link, s) && AtRest(ends, s) && GoneIsStill(s) && !s.client
    ensures !s.server
  {
    hide Inv;
    ReceiverIsOver(link, ends, s);
    assert !Possible(s, ServerSelect);
  }

  lemma ApplicationEndsAll(link: Link, ends: Ends, s: State)
    requires SessionInv(link, s) && AtRest(ends, s) && GoneIsStill(s) && ends.application
    ensures !s.client && !s.server
  {
    hide Inv;
    SenderIsOver(link, ends, s);
    assert !Possible(s, ClientSelect);
    ServerFollows(link, ends, s);
  }

  lemma {:induction false} UndisturbedStays(link: Link, s: State, events: seq<Event>)
    requires Lawful(link.cipher) && SessionInv(link, s) && Undisturbed(s)
    requires FullRun(link, Ends(false, false), s, events)
    ensures Finally(link, s, events).client && Finally(link, s, events).server
    decreases |events|
  {
    hide Inv, Next, Possible, Ordinary, Provoked, Clean, AtRest;
    if events != [] {
      EventKeepsInv(link, s, events[0]);
      EventKeepsUndisturbed(link, s, events[0]);
      UndisturbedStays(link, Next(link, s, events[0]), events[1..]);
    }
  }

  /** Either loop's end ends a process: taken to its end, a run leaves both processes gone if an outer end closes, and both running if neither does. */
  lemma SessionIsOver(link: Link, request: seq<byte>, reply: seq<byte>, ends: Ends, events: seq<Event>)
    requires Lawful(link.cipher) && FullRun(link, ends, Start(request, reply), events)
    ensures var t := Finally(link, Start(request, reply), events);
            if ends.application || ends.target then !t.client && !t.server else t.client && t.server
  {
    hide Inv, IsTrace, Calm, AtRest, Payloads;
    var s := Start(request, reply);
    StartInv(link, request, reply);
    TraceKeepsInv(link, s, events);
    TraceKeepsGone(link, s, events);
    var t := Finally(link, s, events);
    if ends.application {
      ApplicationEndsAll(link, ends, t);
    } else if ends.target {
      MirroredRest(ends, t);
      ApplicationEndsAll(link, Swap(ends), Mirror(t));
    } else {
      UndisturbedStays(link, s, events);
    }
  }
}
