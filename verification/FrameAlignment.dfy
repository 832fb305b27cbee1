/** One swap chain as its hooks see it, with each Present running its managed
    transition to completion: backend queries, Presents, reconfigurations and
    foreign SetColorSpace1 calls, and the color the chain was really given. */
module FrameAlignment {
  import opened Wrappers
  import opened ManagedColorSpace
  import Interleaving

  type Byte = b: nat | b < 0x100
  const LIVE_HDR_UNKNOWN: Byte := 0xFF

  /** Everything the backend query consults besides the chain's own state. */
  datatype Gates = Gates(
    experiment: bool,      // HDR emulation is enabled
    synchronize: bool,     // color-space synchronization is enabled
    requested: bool,       // the game's backend asks for HDR
    live: Byte,            // the last menu setting seen, or LIVE_HDR_UNKNOWN
    capable: bool,
    native: bool,          // the game already reports HDR by itself
    candidate: bool,       // the eligibility check
    captured: bool)        // the chain carries our shadow vtable

  predicate Admitted(g: Gates) {
    g.experiment && g.requested && (g.live == LIVE_HDR_UNKNOWN || g.live == 1) && g.capable && !g.native && g.candidate
  }

  predicate Overrides(s: Session, g: Gates) {
    Admitted(g) && (g.synchronize ==> g.captured && Accepts(s, true))
  }

  function AfterQuery(s: Session, observed: Color, g: Gates): Session {
    if !g.synchronize || !g.captured then s
    else
      var s1 := if Admitted(g) then Request(s, true, observed) else s;
      if Overrides(s, g) then s1 else Request(s1, false, observed)
  }

  /** `device` is the color the chain carries. `lastSet` is the last color a foreign
      component set; `foreign` is the same, except that a foreign PQ set while HDR is
      desired counts as agreement (`agreed`). `reset` says that a reconfiguration
      changed the color and nobody has set one since. */
  datatype Chain = Chain(session: Session, observed: Color, device: Color, foreign: Color, lastSet: Color,
                         agreed: bool, reset: bool)

  const CREATED: Chain := Chain(FRESH, SDR, SDR, SDR, SDR, false, false)

  datatype Event =
    | Query(gates: Gates)
    | Present(eligible: bool, driverAccepts: bool)
    | Reconfigure(color: Color)   // afterwards the chain carries this color, whatever it was before
    | External(color: Color)

  predicate CallSucceeds(t: Transition, eligible: bool, driverAccepts: bool) {
    driverAccepts && (t.enabling ==> eligible)
  }

  function AfterPresent(c: Chain, eligible: bool, driverAccepts: bool): Chain {
    var (s, started) := Begin(c.session);
    if started.None? then c
    else
      var t := started.value;
      var ok := CallSucceeds(t, eligible, driverAccepts);
      c.(session := Finish(s, t, ok),
         observed := if ok then t.target else c.observed,
         device := if ok then t.target else c.device,
         reset := !ok && c.reset)
  }

  predicate Agrees(c: Chain, color: Color) {
    c.session.baseline.Some? && c.session.desired && color == PQ
  }

  function AfterExternal(c: Chain, color: Color): Chain {
    Chain(ObserveExternal(c.session, color), color, color,
          if Agrees(c, color) then c.foreign else color,
          color,
          Agrees(c, color),
          false)
  }

  function AfterReconfiguration(c: Chain, color: Color): Chain {
    c.(session := Reapply(c.session), device := color, reset := c.reset || color != c.device)
  }

  function Apply(c: Chain, e: Event): Chain {
    match e
    case Query(g) => c.(session := AfterQuery(c.session, c.observed, g))
    case Present(eligible, accepts) => AfterPresent(c, eligible, accepts)
    case Reconfigure(color) => AfterReconfiguration(c, color)
    case External(color) => AfterExternal(c, color)
  }

  function Run(c: Chain, events: seq<Event>): Chain
    decreases |events|
  {
    if events == [] then c else Run(Apply(c, events[0]), events[1..])
  }

  // ---------- invariant ----------

  predicate Valid(c: Chain) {
    var s := c.session;
    && (!c.reset ==> c.device == c.observed)
    && !s.inProgress
    && (s.desired ==> s.baseline.Some? && !s.latched)
    && (s.desired && !s.pending ==> c.device == PQ)
    && (s.baseline.Some? && !s.desired && !s.latched ==> s.pending)
    && (if s.baseline.Some? then s.baseline.value == c.foreign else c.observed == c.foreign)
    && (if c.agreed then c.lastSet == PQ else c.lastSet == c.foreign)
  }

  lemma {:induction false} RunKeepsValid(c: Chain, events: seq<Event>)
    requires Valid(c)
    ensures Valid(Run(c, events))
    decreases |events|
  {
    if events != [] {
      RunKeepsValid(Apply(c, events[0]), events[1..]);
    }
  }

  lemma {:induction false} RunAppend(c: Chain, first: seq<Event>, second: seq<Event>)
    ensures Run(c, first + second) == Run(Run(c, first), second)
    decreases |first|
  {
    if first == [] {
      assert first + second == second;
    } else {
      assert (first + second)[1..] == first[1..] + second;
      RunAppend(Apply(c, first[0]), first[1..], second);
    }
  }

  // ---------- what the game is told ----------

  /** In synchronizing mode the desired state always ends up equal to what the
      query answered, also when the latch rejected the enable request. */
  lemma QueryAgreesWithItsAnswer(events: seq<Event>, g: Gates)
    requires g.synchronize && g.captured
    ensures var c := Run(CREATED, events);
            AfterQuery(c.session, c.observed, g).desired <==> Overrides(c.session, g)
  {
    RunKeepsValid(CREATED, events);
  }

  /** The same under every interleaving, where a session may be latched while HDR is
      still desired: then it is the fallback request that makes them agree. */
  lemma QueryAgreesInEverySchedule(steps: seq<Interleaving.Step>, g: Gates)
    requires g.synchronize && g.captured
    ensures var sys := Interleaving.Run(Interleaving.INITIAL, steps);
            AfterQuery(sys.session, sys.observed, g).desired <==> Overrides(sys.session, g)
  {
    Interleaving.RunKeepsInv(Interleaving.INITIAL, steps);
  }

  lemma FallbackHasWorkToDo()
    ensures exists steps ::
              var sys := Interleaving.Run(Interleaving.INITIAL, steps);
              && sys.session.latched && sys.session.desired && !Overrides(sys.session, OPEN_GATES)
              && !AfterQuery(sys.session, sys.observed, OPEN_GATES).desired
  {
    Interleaving.LatchedWhileDesired();
    var sys := Interleaving.Run(Interleaving.INITIAL, Interleaving.REOPENED);
    assert sys.session.latched && sys.session.desired;
  }

  /** The exact answer: emulation is on, the game asks for HDR and does not have it by
      itself, the menu says 1 or nothing yet, the backend is capable and the candidate
      eligible; and if the color is synchronized, the chain is captured and no failure
      is latched. */
  lemma OverridesIff(s: Session, g: Gates)
    ensures Overrides(s, g) <==>
              && g.experiment && g.requested && g.live in {1, 255} && g.capable && !g.native && g.candidate
              && (g.synchronize ==> g.captured && !s.latched)
  {
  }

  /** A synchronized override leaves the session wanting HDR; any other synchronized
      answer on a captured chain leaves it not wanting it. */
  lemma AnswerIsCarriedOut(events: seq<Event>, g: Gates)
    requires g.synchronize
    ensures var c := Run(CREATED, events);
            && (Overrides(c.session, g) ==> Apply(c, Query(g)).session.desired)
            && (g.captured && !Overrides(c.session, g) ==> !Apply(c, Query(g)).session.desired)
            && (!g.captured ==> !Overrides(c.session, g) && Apply(c, Query(g)) == c)
  {
    RunKeepsValid(CREATED, events);
  }

  // ---------- eligibility at Present ----------

  /** Without an eligible candidate no Present turns the chain to HDR: an attempt makes
      no driver call, leaves the color and latches the failure. */
  lemma IneligiblePresentNeverEnables(c: Chain, accepts: bool)
    requires c.session.desired
    ensures var after := AfterPresent(c, false, accepts);
            && after.device == c.device && after.observed == c.observed
            && (Ready(c.session) ==> after.session.latched && !after.session.desired)
  {
  }

  /** What the driver rejects leaves the color and latches the failure. */
  lemma RejectedCallLatches(c: Chain, eligible: bool)
    ensures var after := AfterPresent(c, eligible, false);
            && after.device == c.device && after.observed == c.observed
            && (Ready(c.session) ==> after.session.latched)
  {
  }

  /** An eligible enabling call that the driver accepts succeeds, and so does a
      restore, eligible or not. */
  lemma AcceptedCallSucceeds(c: Chain, eligible: bool)
    requires Ready(c.session) && (c.session.desired ==> eligible)
    ensures var after := AfterPresent(c, eligible, true);
            && after.device == after.observed == Expected(c.session)
            && after.session.latched == c.session.latched
            && (after.session.baseline.None? <==> !c.session.desired)
  {
  }

  /** The events at which a managed call may turn the chain to PQ. */
  predicate MayTurnToPq(c: Chain, e: Event) {
    match e
    case Present(eligible, accepts) =>
      Ready(c.session) && accepts && if c.session.desired then eligible else c.session.baseline == Some(PQ)
    case Reconfigure(color) => color == PQ
    case External(color) => color == PQ
    case Query(_) => false
  }

  predicate NeverToPq(c: Chain, events: seq<Event>)
    decreases |events|
  {
    events == [] || (!MayTurnToPq(c, events[0]) && NeverToPq(Apply(c, events[0]), events[1..]))
  }

  /** A chain comes to PQ only at an eligible Present, by the restore of a PQ baseline,
      or through somebody else. */
  lemma {:induction false} PqNeedsACause(c: Chain, events: seq<Event>)
    requires c.device != PQ && NeverToPq(c, events)
    ensures Run(c, events).device != PQ
    decreases |events|
  {
    if events != [] {
      PqNeedsACause(Apply(c, events[0]), events[1..]);
    }
  }

  // ---------- frame alignment ----------

  /** A reconfiguration changed the color of a chain that nothing was managing. */
  predicate ResetUnmanaged(c: Chain) {
    c.session.baseline.None? && c.reset
  }

  /** At every forwarded Present a failure is latched, or the frame is an HDR frame on
      a PQ chain, or nothing is managed and the chain carries the color its owner
      chose. Reconfigurations may change the color to anything; only a change on a
      chain that was not managed is left alone. */
  lemma EveryFrameIsAligned(events: seq<Event>, eligible: bool, driverAccepts: bool)
    ensures var before := Run(CREATED, events);
            var c := Run(CREATED, events + [Present(eligible, driverAccepts)]);
            || c.session.latched
            || (c.session.desired && c.device == PQ)
            || (c.session.baseline.None? && (c.device == c.foreign || ResetUnmanaged(before)))
  {
    RunKeepsValid(CREATED, events);
    var last := [Present(eligible, driverAccepts)];
    RunAppend(CREATED, events, last);
    assert last[1..] == [];
  }

  /** The answer given to the game and the color of the frame it then presents
      match, unless a failure is latched by that time. */
  lemma FrameMatchesTheQueryAnswer(events: seq<Event>, g: Gates, eligible: bool, driverAccepts: bool)
    requires g.synchronize && g.captured
    ensures var before := Run(CREATED, events);
            var frame := Run(CREATED, events + [Query(g), Present(eligible, driverAccepts)]);
            && (Overrides(before.session, g) ==>
                  if frame.session.latched then frame.session.pending && !frame.session.desired
                  else frame.session.desired && frame.device == PQ)
            && (!Overrides(before.session, g) && !frame.session.latched ==>
                  && frame.session.baseline.None? && frame.foreign == before.foreign
                  && (frame.device == frame.foreign || ResetUnmanaged(before)))
  {
    RunKeepsValid(CREATED, events);
    var tail := [Query(g), Present(eligible, driverAccepts)];
    RunAppend(CREATED, events, tail);
    assert tail[1..] == [Present(eligible, driverAccepts)] && tail[1..][1..] == [];
    var c := Run(CREATED, events);
    var asked := Apply(c, tail[0]);
    assert Run(c, tail) == Run(asked, tail[1..]) == Apply(asked, tail[1]);
  }

  /** A session closed by a successful managed restore leaves the chain at exactly
      the color observed when it opened, whatever reconfigurations came between. */
  lemma RestoreReturnsTheCapturedColor(events: seq<Event>, eligible: bool, driverAccepts: bool)
    requires Run(CREATED, events).session.baseline.Some?
    requires AfterPresent(Run(CREATED, events), eligible, driverAccepts).session.baseline.None?
    ensures var c := Run(CREATED, events);
            AfterPresent(c, eligible, driverAccepts).device == c.session.baseline.value == c.foreign
  {
    RunKeepsValid(CREATED, events);
  }

  /** The color a reconfiguration left behind, if there has been one since the last
      foreign set or successful managed call. */
  function LeftAfter(c: Chain, left: Option<Color>, e: Event): Option<Color> {
    match e
    case Query(_) => left
    case Reconfigure(color) => Some(color)
    case External(_) => None
    case Present(eligible, accepts) =>
      var started := Begin(c.session).1;
      if started.Some? && CallSucceeds(started.value, eligible, accepts) then None else left
  }

  function Left(c: Chain, left: Option<Color>, events: seq<Event>): Option<Color>
    decreases |events|
  {
    if events == [] then left else Left(Apply(c, events[0]), LeftAfter(c, left, events[0]), events[1..])
  }

  /** The chain carries what a reconfiguration left, or else the recorded color. */
  predicate Carries(c: Chain, left: Option<Color>) {
    c.device == if left.Some? then left.value else c.observed
  }

  lemma {:induction false} RunCarries(c: Chain, left: Option<Color>, events: seq<Event>)
    requires Carries(c, left)
    ensures Carries(Run(c, events), Left(c, left, events))
    decreases |events|
  {
    if events != [] {
      RunCarries(Apply(c, events[0]), LeftAfter(c, left, events[0]), events[1..]);
    }
  }

  /** A session captures the color the chain carries exactly if nobody reconfigured the
      chain since a color was last set, or that left it at the recorded color. */
  lemma CaptureIsCurrentIff(events: seq<Event>, g: Gates)
    requires g.synchronize && Overrides(Run(CREATED, events).session, g)
    requires Run(CREATED, events).session.baseline.None?
    ensures var c, left := Run(CREATED, events), Left(CREATED, None, events);
            Apply(c, Query(g)).session.baseline == Some(c.device) <==> left.None? || left.value == c.observed
  {
    RunCarries(CREATED, None, events);
  }

  /** Otherwise the session closes at a color that the chain did not carry when it opened. */
  lemma StaleCaptureIsRestored()
    ensures var before := Run(CREATED, [Reconfigure(1)]);
            var during := Run(CREATED, [Reconfigure(1), Query(OPEN_GATES)]);
            var closed := Run(CREATED, [Reconfigure(1), Query(OPEN_GATES), Present(true, true),
                                        Query(OPEN_GATES.(requested := false)), Present(true, true)]);
            && before.session.baseline.None? && before.device == 1
            && during.session.baseline == Some(SDR) && during.device == 1
            && closed.session.baseline.None? && !closed.session.latched && closed.device == SDR
  {
    var off := Query(OPEN_GATES.(requested := false));
    var c1 := Apply(CREATED, Reconfigure(1));
    var c2 := Apply(c1, Query(OPEN_GATES));
    var c3 := Apply(c2, Present(true, true));
    RunOne(CREATED, Reconfigure(1), []);
    RunOne(CREATED, Reconfigure(1), [Query(OPEN_GATES)]);
    RunOne(c1, Query(OPEN_GATES), []);
    RunOne(CREATED, Reconfigure(1), [Query(OPEN_GATES), Present(true, true), off, Present(true, true)]);
    RunOne(c1, Query(OPEN_GATES), [Present(true, true), off, Present(true, true)]);
    RunOne(c2, Present(true, true), [off, Present(true, true)]);
    RunOne(c3, off, [Present(true, true)]);
    RunOne(Apply(c3, off), Present(true, true), []);
    assert [Reconfigure(1)] + [Query(OPEN_GATES)] == [Reconfigure(1), Query(OPEN_GATES)];
  }

  lemma RunOne(c: Chain, e: Event, rest: seq<Event>)
    ensures Run(c, [e] + rest) == Run(Apply(c, e), rest)
  {
    assert ([e] + rest)[1..] == rest;
  }

  predicate Undisturbed(events: seq<Event>) {
    forall e <- events :: !e.External?
  }

  lemma {:induction false} UndisturbedKeepsForeign(c: Chain, events: seq<Event>)
    requires Undisturbed(events)
    ensures Run(c, events).foreign == c.foreign
    decreases |events|
  {
    if events != [] {
      UndisturbedKeepsForeign(Apply(c, events[0]), events[1..]);
    }
  }

  /** Conservation: in a run without foreign color sets, whenever nothing is managed
      the chain has the color it was created with, or one a reconfiguration left. */
  lemma ManagementLeavesNoTrace(events: seq<Event>)
    requires Undisturbed(events) && Run(CREATED, events).session.baseline.None?
    ensures Run(CREATED, events).observed == SDR
    ensures Run(CREATED, events).device == SDR || Run(CREATED, events).reset
  {
    RunKeepsValid(CREATED, events);
    UndisturbedKeepsForeign(CREATED, events);
  }

  /** Whether the chain's owner gets back the color it set last: exactly unless it
      set PQ itself while HDR was desired, over a different captured color. */
  lemma OwnerGetsItsLastColorBackIff(events: seq<Event>)
    requires Run(CREATED, events).session.baseline.None?
    ensures var c := Run(CREATED, events);
            && (c.observed == c.lastSet <==> !(c.agreed && c.foreign != PQ))
            && (!c.reset ==> c.device == c.observed)
  {
    RunKeepsValid(CREATED, events);
  }

  const OPEN_GATES: Gates := Gates(true, true, true, 1, true, false, true, true)

  lemma OwnerMayNotGetItsLastColorBack()
    ensures exists events ::
              var c := Run(CREATED, events);
              c.session.baseline.None? && !c.session.latched && c.lastSet == PQ && c.device == SDR
  {
    var on := [Query(OPEN_GATES), Present(true, true), External(PQ)];
    var off := [Query(OPEN_GATES.(requested := false)), Present(true, true)];
    RunAppend(CREATED, on, off);
    assert on[1..][1..] == [External(PQ)] && on[1..][1..][1..] == [];
    assert off[1..] == [Present(true, true)] && off[1..][1..] == [];
    var c1 := Apply(CREATED, on[0]);
    var c2 := Apply(c1, on[1]);
    var c3 := Apply(c2, on[2]);
    assert Run(CREATED, on) == Run(c2, on[1..][1..]) == Run(c3, []);
    assert Run(c3, off) == Run(Apply(c3, off[0]), off[1..]) == Run(Apply(Apply(c3, off[0]), off[1]), []);
  }

  // ---------- after a failure ----------

  function DriverCalls(c: Chain, events: seq<Event>): nat
    decreases |events|
  {
    if events == [] then 0
    else (if events[0].Present? && Ready(c.session) then 1 else 0) + DriverCalls(Apply(c, events[0]), events[1..])
  }

  /** Once a failure is latched at most one more driver call is made, it is a
      restore, and HDR is never claimed again. */
  lemma {:induction false} FailureEndsManagement(c: Chain, events: seq<Event>)
    requires Valid(c) && c.session.latched
    ensures Run(c, events).session.latched && !Run(c, events).session.desired
    ensures DriverCalls(c, events) <= (if c.session.pending && c.session.baseline.Some? then 1 else 0)
    ensures forall g: Gates | g.synchronize :: !Overrides(Run(c, events).session, g)
    ensures Run(c, events).session.baseline.Some? ==> Run(c, events).session.baseline == c.session.baseline
    decreases |events|
  {
    if events != [] {
      FailureEndsManagement(Apply(c, events[0]), events[1..]);
    }
  }

  // ---------- completed Presents are one schedule of the interleaved system ----------

  function Schedule(c: Chain, e: Event): seq<Interleaving.Step> {
    match e
    case Query(g) =>
      if !g.synchronize || !g.captured then []
      else (if Admitted(g) then [Interleaving.Query(true)] else [])
           + (if Overrides(c.session, g) then [] else [Interleaving.Query(false)])
    case Present(eligible, accepts) =>
      var (s, started) := Begin(c.session);
      if started.None? then [Interleaving.Start]
      else [Interleaving.Start, Interleaving.Complete(0, CallSucceeds(started.value, eligible, accepts))]
    case Reconfigure(_) => [Interleaving.Reconfigure]
    case External(color) => [Interleaving.External(color)]
  }

  ghost predicate Embeds(sys: Interleaving.System, c: Chain) {
    sys.session == c.session && sys.observed == c.observed && sys.flights == []
  }

  lemma EventIsASchedule(sys: Interleaving.System, c: Chain, e: Event)
    requires Embeds(sys, c)
    ensures Embeds(Interleaving.Run(sys, Schedule(c, e)), Apply(c, e))
  {
    var steps := Schedule(c, e);
    if |steps| == 1 {
      assert steps[1..] == [];
      assert Interleaving.Run(sys, steps) == Interleaving.Next(sys, steps[0]);
    } else if |steps| == 2 {
      var s1 := Interleaving.Next(sys, steps[0]);
      assert steps[1..] == [steps[1]] && steps[1..][1..] == [];
      assert Interleaving.Run(sys, steps) == Interleaving.Run(s1, [steps[1]]) == Interleaving.Next(s1, steps[1]);
    }
  }

  function ScheduleAll(c: Chain, events: seq<Event>): seq<Interleaving.Step>
    decreases |events|
  {
    if events == [] then [] else Schedule(c, events[0]) + ScheduleAll(Apply(c, events[0]), events[1..])
  }

  /** Every run of this model is one schedule of the interleaved system, so every
      invariant proved there holds here. */
  lemma {:induction false} RunIsASchedule(sys: Interleaving.System, c: Chain, events: seq<Event>)
    requires Embeds(sys, c)
    ensures Embeds(Interleaving.Run(sys, ScheduleAll(c, events)), Run(c, events))
    decreases |events|
  {
    if events != [] {
      EventIsASchedule(sys, c, events[0]);
      var head := Schedule(c, events[0]);
      Interleaving.RunAppend(sys, head, ScheduleAll(Apply(c, events[0]), events[1..]));
      RunIsASchedule(Interleaving.Run(sys, head), Apply(c, events[0]), events[1..]);
    }
  }

  // ---------- the hooks ----------

  class SwapChain {
    const managed: ManagedColorSpaceState
    var observed: Color
    ghost var device: Color
    ghost var foreign: Color
    ghost var lastSet: Color
    ghost var agreed: bool
    ghost var reset: bool

    ghost function View(): Chain
      reads this, managed
    {
      Chain(managed.View(), observed, device, foreign, lastSet, agreed, reset)
    }

    constructor ()
      ensures View() == CREATED && fresh(managed)
    {
      managed := new ManagedColorSpaceState();
      observed := SDR;
      device, foreign, lastSet, agreed, reset := SDR, SDR, SDR, false, false;
    }

    /** The captured-chain part of a color request; `None` when the chain was
        never captured. */
    method RequestManaged(hdr: bool, captured: bool) returns (accepted: Option<bool>)
      modifies managed
      ensures accepted == if captured then Some(Accepts(old(managed.View()), hdr)) else None
      ensures managed.View() == if captured then Request(old(managed.View()), hdr, observed) else old(managed.View())
    {
      if !captured {
        return None;
      }
      var a := managed.RequestHdr(hdr, observed);
      return Some(a);
    }

    /** The decision the hooked backend query makes and the answer it returns. */
    method BackendQuery(g: Gates) returns (effective: bool, overridden: bool)
      modifies managed
      ensures View() == Apply(old(View()), Query(g))
      ensures overridden <==> Overrides(old(managed.View()), g)
      ensures effective <==> g.native || overridden
      ensures overridden <==>
                && g.experiment && g.requested && g.live in {1, 255} && g.capable && !g.native && g.candidate
                && (g.synchronize ==> g.captured && !old(managed.failureLatched))
    {
      effective, overridden := g.native, false;
      var allowed := g.live == LIVE_HDR_UNKNOWN || g.live == 1;
      if g.experiment && g.requested && allowed && g.capable && !g.native && g.candidate {
        var ready := true;
        if g.synchronize {
          var accepted := RequestManaged(true, g.captured);
          ready := accepted.Some? && accepted.value;
        }
        if ready {
          effective, overridden := true, true;
        }
      }
      if g.synchronize && !overridden {
        var _ := RequestManaged(false, g.captured);
      }
    }

    /** Runs the armed transition, if any, before a Present is forwarded. An enable
        is attempted only if the candidate is still eligible. */
    method ApplyBeforePresent(eligible: bool, driverAccepts: bool)
      modifies this, managed
      ensures View() == Apply(old(View()), Present(eligible, driverAccepts))
      ensures old(managed.desiredHdr) && !eligible ==> device == old(device) && observed == old(observed)
      ensures !driverAccepts ==> device == old(device) && observed == old(observed)
    {
      var transition := managed.BeginTransition();
      if transition.None? {
        return;
      }
      var t := transition.value;
      var succeeded := false;
      if !t.enabling || eligible {
        succeeded := driverAccepts;
        if driverAccepts {
          device, reset := t.target, false;
        }
      }
      if succeeded {
        observed := t.target;
      }
      managed.FinishTransition(t, succeeded);
    }

    /** After a reconfiguration that left the chain at `color`. */
    method AdvanceGeneration(ghost color: Color)
      modifies this, managed
      ensures View() == Apply(old(View()), Reconfigure(color))
    {
      reset := reset || color != device;
      device := color;
      managed.ReapplyAfterReconfiguration();
    }

    /** A foreign SetColorSpace1, forwarded unchanged; a failed call is ignored. */
    method SetColorSpace1(requested: Color, driverAccepts: bool) returns (conflict: bool)
      modifies this, managed
      ensures View() == if driverAccepts then Apply(old(View()), External(requested)) else old(View())
      ensures conflict <==> driverAccepts && Conflicts(old(managed.View()), requested)
      ensures driverAccepts ==> observed == device == requested
    {
      conflict := false;
      if driverAccepts {
        ghost var agreement := Agrees(View(), requested);
        device, lastSet, agreed, reset := requested, requested, agreement, false;
        if !agreement {
          foreign := requested;
        }
        observed := requested;
        conflict := managed.ObserveExternalSet(requested);
      }
    }
  }
}
