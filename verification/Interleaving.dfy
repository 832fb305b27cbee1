/** The color-space state machine under every interleaving of its critical
    sections. The state lock is released between the start and the end of a
    transition, while the driver call runs, so requests, reconfigurations,
    foreign SetColorSpace1 calls and other Presents may fall in between. */
module Interleaving {
  import opened Wrappers
  import opened ManagedColorSpace

  /** A transition whose driver call has not been reported back yet, with the
      true (unwrapped) number of epoch bumps at which it began. */
  datatype Flight = Flight(transition: Transition, begunAt: nat)

  datatype System = System(session: Session, observed: Color, flights: seq<Flight>, bumps: nat)

  datatype Step =
    | Query(hdr: bool)
    | Start
    | Complete(flight: nat, succeeded: bool)
    | Reconfigure
    | External(color: Color)

  const INITIAL: System := System(FRESH, SDR, [], 0)

  /** Installs the next session, counting an epoch bump if there was one. */
  function Advance(sys: System, s: Session): System {
    sys.(session := s, bumps := if s.epoch == sys.session.epoch then sys.bumps else sys.bumps + 1)
  }

  function Next(sys: System, step: Step): System {
    match step
    case Query(hdr) => Advance(sys, Request(sys.session, hdr, sys.observed))
    case Start =>
      var (s, started) := Begin(sys.session);
      if started.None? then sys
      else sys.(session := s, flights := sys.flights + [Flight(started.value, sys.bumps)])
    case Complete(i, succeeded) =>
      if i >= |sys.flights| then sys
      else
        var t := sys.flights[i].transition;
        Advance(sys, Finish(sys.session, t, succeeded)).(
          observed := if succeeded then t.target else sys.observed,
          flights := sys.flights[..i] + sys.flights[i + 1..])
    case Reconfigure => sys.(session := Reapply(sys.session))
    case External(color) =>
      Advance(sys, ObserveExternal(sys.session, color)).(observed := color)
  }

  function Run(sys: System, steps: seq<Step>): System
    decreases |steps|
  {
    if steps == [] then sys else Run(Next(sys, steps[0]), steps[1..])
  }

  // ---------- what every step keeps ----------

  /** A foreign component took the chain over; nothing is managed any more. */
  predicate Relinquished(s: Session) {
    s.latched && s.baseline.None?
  }

  predicate Odd(epoch: Epoch) {
    epoch % 2 == 1
  }

  ghost predicate FlightValid(sys: System, f: Flight) {
    && f.begunAt <= sys.bumps
    && f.transition.epoch == f.begunAt % EPOCHS
    && (f.transition.enabling <==> Odd(f.transition.epoch))
    && (f.transition.enabling ==> f.transition.target == PQ)
    && (!f.transition.enabling && f.begunAt == sys.bumps && sys.session.baseline.Some? ==>
          f.transition.target == sys.session.baseline.value)
    && (Relinquished(sys.session) && f.begunAt == sys.bumps ==> !f.transition.enabling)
  }

  ghost predicate Exclusive(sys: System) {
    && |sys.flights| <= 1
    && (sys.session.inProgress ==> |sys.flights| == 1)
    && (|sys.flights| == 1 ==> sys.session.inProgress || Relinquished(sys.session))
  }

  ghost predicate RestorationOwed(sys: System) {
    var s := sys.session;
    s.baseline.Some? && !s.desired && !s.latched ==>
      || s.pending
      || (|sys.flights| == 1 && !sys.flights[0].transition.enabling && sys.flights[0].transition.epoch == s.epoch)
  }

  ghost predicate Inv(sys: System) {
    var s := sys.session;
    && Exclusive(sys)
    && RestorationOwed(sys)
    && s.epoch == sys.bumps % EPOCHS
    && (s.desired ==> s.baseline.Some?)
    // Every bump outside relinquishing flips the desired state, and the modulus
    // is even, so the epoch's parity survives wrap-around.
    && (!Relinquished(s) ==> (s.desired <==> Odd(s.epoch)))
    && forall f <- sys.flights :: FlightValid(sys, f)
  }

  lemma BumpParity(e: Epoch)
    ensures Odd(Bump(e)) <==> !Odd(e)
    ensures Bump(e) != e
  {
  }

  lemma BumpCounts(n: nat)
    ensures Bump(n % EPOCHS) == (n + 1) % EPOCHS
  {
  }

  lemma NextKeepsInv(sys: System, step: Step)
    requires Inv(sys)
    ensures Inv(Next(sys, step))
  {
    BumpParity(sys.session.epoch);
    BumpCounts(sys.bumps);
    if step.Complete? && step.flight < |sys.flights| {
      assert FlightValid(sys, sys.flights[step.flight]);
    }
  }

  lemma {:induction false} RunKeepsInv(sys: System, steps: seq<Step>)
    requires Inv(sys)
    ensures Inv(Run(sys, steps))
    decreases |steps|
  {
    if steps != [] {
      NextKeepsInv(sys, steps[0]);
      RunKeepsInv(Next(sys, steps[0]), steps[1..]);
    }
  }

  lemma {:induction false} RunAppend(sys: System, first: seq<Step>, second: seq<Step>)
    ensures Run(sys, first + second) == Run(Run(sys, first), second)
    decreases |first|
  {
    if first == [] {
      assert first + second == second;
    } else {
      assert (first + second)[1..] == first[1..] + second;
      RunAppend(Next(sys, first[0]), first[1..], second);
    }
  }

  // ---------- at most one transition in flight ----------

  /** Even though a conflicting external set clears the in-progress flag early,
      no schedule ever has two driver calls outstanding, and the flag is never
      left standing without the flight that will clear it. */
  lemma AtMostOneInFlight(steps: seq<Step>)
    ensures var sys := Run(INITIAL, steps);
            && |sys.flights| <= 1
            && (sys.session.inProgress ==>
                  |sys.flights| == 1 && forall ok :: !Next(sys, Complete(0, ok)).session.inProgress)
  {
    RunKeepsInv(INITIAL, steps);
  }

  /** Whether `step` starts a driver call, and whether that call enables HDR. */
  predicate Starts(sys: System, step: Step) {
    step.Start? && Ready(sys.session)
  }

  function StartCount(sys: System, steps: seq<Step>): nat
    decreases |steps|
  {
    if steps == [] then 0
    else (if Starts(sys, steps[0]) then 1 else 0) + StartCount(Next(sys, steps[0]), steps[1..])
  }

  function EnablingStartCount(sys: System, steps: seq<Step>): nat
    decreases |steps|
  {
    if steps == [] then 0
    else (if Starts(sys, steps[0]) && sys.session.desired then 1 else 0)
         + EnablingStartCount(Next(sys, steps[0]), steps[1..])
  }

  /** Once relinquished, a chain is never managed again: nothing starts, nothing
      is captured, and the latch stays. */
  lemma {:induction false} RelinquishedForGood(sys: System, steps: seq<Step>)
    requires Relinquished(sys.session)
    ensures Relinquished(Run(sys, steps).session)
    ensures StartCount(sys, steps) == 0
    ensures |Run(sys, steps).flights| <= |sys.flights|
    decreases |steps|
  {
    if steps != [] {
      RelinquishedForGood(Next(sys, steps[0]), steps[1..]);
    }
  }

  // ---------- nothing starts without a cause ----------

  predicate Armed(s: Session) {
    s.pending && s.baseline.Some?
  }

  /** A step that may arm a transition: a request that changes what is wanted, a
      reconfiguration of an open session, or the failure of the current enabling call. */
  predicate Arms(sys: System, step: Step) {
    match step
    case Query(hdr) => Next(sys, step).session.desired != sys.session.desired
    case Reconfigure => sys.session.baseline.Some? && !sys.session.latched
    case Complete(i, succeeded) =>
      && i < |sys.flights| && !succeeded
      && sys.flights[i].transition.enabling && sys.flights[i].transition.epoch == sys.session.epoch
    case _ => false
  }

  function ArmCount(sys: System, steps: seq<Step>): nat
    decreases |steps|
  {
    if steps == [] then 0 else Bit(Arms(sys, steps[0])) + ArmCount(Next(sys, steps[0]), steps[1..])
  }

  lemma OneStart(sys: System, step: Step)
    requires Inv(sys)
    ensures Bit(Starts(sys, step)) + Bit(Armed(Next(sys, step).session))
            <= Bit(Armed(sys.session)) + Bit(Arms(sys, step))
  {
    if step.Complete? && step.flight < |sys.flights| {
      assert FlightValid(sys, sys.flights[step.flight]);
    }
  }

  /** Each driver call uses up one reason for it; none is made without. */
  lemma {:induction false} StartsHaveCauses(sys: System, steps: seq<Step>)
    requires Inv(sys)
    ensures StartCount(sys, steps) + Bit(Armed(Run(sys, steps).session))
            <= Bit(Armed(sys.session)) + ArmCount(sys, steps)
    decreases |steps|
  {
    hide Inv, Next, Starts, Arms, Armed;
    if steps != [] {
      NextKeepsInv(sys, steps[0]);
      OneStart(sys, steps[0]);
      StartsHaveCauses(Next(sys, steps[0]), steps[1..]);
    }
  }

  /** After a foreign set no driver call starts until one of these steps. */
  lemma ForeignSetLeavesNothingToStart(sys: System, color: Color, steps: seq<Step>)
    requires Inv(sys) && ArmCount(Next(sys, External(color)), steps) == 0
    ensures StartCount(Next(sys, External(color)), steps) == 0
  {
    NextKeepsInv(sys, External(color));
    StartsHaveCauses(Next(sys, External(color)), steps);
  }

  // ---------- no unbounded retry ----------

  function Bit(b: bool): nat {
    if b then 1 else 0
  }

  /** How many more driver calls a latched session can still start. */
  function Measure(s: Session): nat {
    if s.baseline.None? then 0 else Bit(s.desired) + Bit(s.pending)
  }

  lemma LatchedStep(sys: System, step: Step)
    requires Inv(sys) && sys.session.latched
    ensures var s' := Next(sys, step).session;
            && s'.latched
            && Measure(s') + Bit(Starts(sys, step)) <= Measure(sys.session)
            && (s'.desired ==> sys.session.desired)
            && (Measure(s') == 2 ==> Measure(sys.session) == 2 && !Starts(sys, step))
  {
    if step.Complete? && step.flight < |sys.flights| {
      assert FlightValid(sys, sys.flights[step.flight]);
    }
  }

  /** After the first failure at most two further driver calls ever start, and at
      most one of them enables HDR, however the schedule continues. */
  lemma {:induction false} RetryBound(sys: System, steps: seq<Step>)
    requires Inv(sys) && sys.session.latched
    ensures Run(sys, steps).session.latched
    ensures StartCount(sys, steps) + Measure(Run(sys, steps).session) <= Measure(sys.session) <= 2
    ensures EnablingStartCount(sys, steps) <= (if Measure(sys.session) == 2 then 1 else 0)
    decreases |steps|
  {
    if steps != [] {
      LatchedStep(sys, steps[0]);
      NextKeepsInv(sys, steps[0]);
      RetryBound(Next(sys, steps[0]), steps[1..]);
    }
  }

  lemma NoUnboundedRetry(before: seq<Step>, after: seq<Step>)
    requires Run(INITIAL, before).session.latched
    ensures StartCount(Run(INITIAL, before), after) <= 2
    ensures EnablingStartCount(Run(INITIAL, before), after) <= 1
    ensures Run(INITIAL, before + after).session.latched
  {
    RunKeepsInv(INITIAL, before);
    RetryBound(Run(INITIAL, before), after);
    RunAppend(INITIAL, before, after);
  }

  const REOPENED: seq<Step> :=
    [Query(true), Start, Complete(0, true), Query(false)] + [Start, Query(true), Complete(0, false), Reconfigure]

  /** A restore that fails after HDR was requested again latches the failure while
      HDR is still desired and an enable is pending. */
  lemma LatchedWhileDesired()
    ensures Run(INITIAL, REOPENED).session == Session(Some(SDR), true, true, false, true, 3)
    ensures Run(INITIAL, REOPENED).flights == [] && Run(INITIAL, REOPENED).observed == PQ
  {
    var open := [Query(true), Start, Complete(0, true), Query(false)];
    var reopen := [Start, Query(true), Complete(0, false), Reconfigure];
    RunAppend(INITIAL, open, reopen);
    UnfoldFour(INITIAL, open);
    UnfoldFour(Run(INITIAL, open), reopen);
  }

  /** Exactly how that comes about: HDR is desired and a driver call fails that was
      started for an earlier request. */
  lemma LatchesWhileDesiredIff(sys: System, step: Step)
    requires Inv(sys) && !(sys.session.latched && sys.session.desired)
    ensures var s := Next(sys, step).session;
            s.latched && s.desired <==>
              && sys.session.desired && step.Complete? && !step.succeeded && step.flight < |sys.flights|
              && sys.flights[step.flight].transition.epoch != sys.session.epoch
  {
    if step.Complete? && step.flight < |sys.flights| {
      assert FlightValid(sys, sys.flights[step.flight]);
    }
  }

  /** The bound in its exact form: after a failure another enabling call can start if
      and only if HDR is desired and a transition is armed. */
  lemma EnablingRetryIff(sys: System)
    requires Inv(sys) && sys.session.latched
    ensures (exists steps :: EnablingStartCount(sys, steps) == 1) <==> sys.session.desired && sys.session.pending
  {
    if steps :| EnablingStartCount(sys, steps) == 1 {
      RetryBound(sys, steps);
    }
    if sys.session.desired && sys.session.pending {
      var start := [Start];
      assert start[1..] == [];
      if !sys.session.inProgress {
        assert EnablingStartCount(sys, start) == 1 + EnablingStartCount(Next(sys, Start), []);
      } else {
        assert FlightValid(sys, sys.flights[0]);
        var free := Next(sys, Complete(0, true));
        var steps := [Complete(0, true), Start];
        assert steps[1..] == start;
        assert EnablingStartCount(free, start) == 1 + EnablingStartCount(Next(free, Start), []);
        assert EnablingStartCount(sys, steps) == EnablingStartCount(free, start);
      }
    }
  }

  /** The bound is attained from such a state. */
  lemma RetryBoundIsTight()
    ensures exists before, after ::
              && Run(INITIAL, before).session.latched
              && StartCount(Run(INITIAL, before), after) == 2
              && EnablingStartCount(Run(INITIAL, before), after) == 1
  {
    LatchedWhileDesired();
    UnfoldFour(Run(INITIAL, REOPENED), [Start, Query(false), Complete(0, true), Start]);
  }

  lemma UnfoldFour(sys: System, steps: seq<Step>)
    requires |steps| == 4
    ensures var s1 := Next(sys, steps[0]);
            var s2 := Next(s1, steps[1]);
            var s3 := Next(s2, steps[2]);
            && Run(sys, steps) == Next(s3, steps[3])
            && StartCount(sys, steps) == Bit(Starts(sys, steps[0])) + Bit(Starts(s1, steps[1]))
                                         + Bit(Starts(s2, steps[2])) + Bit(Starts(s3, steps[3]))
            && EnablingStartCount(sys, steps)
               == Bit(Starts(sys, steps[0]) && sys.session.desired) + Bit(Starts(s1, steps[1]) && s1.session.desired)
                  + Bit(Starts(s2, steps[2]) && s2.session.desired) + Bit(Starts(s3, steps[3]) && s3.session.desired)
  {
    var s1 := Next(sys, steps[0]);
    var s2 := Next(s1, steps[1]);
    var s3 := Next(s2, steps[2]);
    var rest := steps[1..][1..][1..];
    assert rest == [steps[3]] && rest[1..] == [];
    assert Run(s3, rest) == Run(Next(s3, steps[3]), []);
    assert StartCount(s3, rest) == Bit(Starts(s3, steps[3]));
    assert EnablingStartCount(s3, rest) == Bit(Starts(s3, steps[3]) && s3.session.desired);
    assert Run(s2, steps[1..][1..]) == Run(s3, rest);
    assert StartCount(s1, steps[1..]) == Bit(Starts(s1, steps[1])) + StartCount(s2, steps[1..][1..]);
    assert EnablingStartCount(s1, steps[1..])
           == Bit(Starts(s1, steps[1]) && s1.session.desired) + EnablingStartCount(s2, steps[1..][1..]);
  }

  // ---------- a critical section decides ----------

  /** Whatever is in flight or latched: a request that is accepted leaves the session
      wanting exactly what was asked for. */
  lemma AcceptedRequestDecides(sys: System, hdr: bool)
    requires Inv(sys) && Accepts(sys.session, hdr)
    ensures Next(sys, Query(hdr)).session.desired == hdr
  {
  }

  /** So in any schedule, with whatever ran between the sections of a hook. */
  lemma LastAcceptedRequestDecides(steps: seq<Step>, hdr: bool)
    requires Accepts(Run(INITIAL, steps).session, hdr)
    ensures Run(INITIAL, steps + [Query(hdr)]).session.desired == hdr
  {
    RunKeepsInv(INITIAL, steps);
    AcceptedRequestDecides(Run(INITIAL, steps), hdr);
    var last := [Query(hdr)];
    assert last[1..] == [];
    RunAppend(INITIAL, steps, last);
  }

  // ---------- an owed restoration is never forgotten ----------

  /** A captured chain that no longer wants HDR always has its restoration on the
      way: still pending, or the one driver call in flight is that restoration. */
  lemma RestorationNeverForgotten(steps: seq<Step>)
    requires var s := Run(INITIAL, steps).session; s.baseline.Some? && !s.desired && !s.latched
    ensures var sys := Run(INITIAL, steps);
            || sys.session.pending
            || (exists f <- sys.flights :: !f.transition.enabling && f.transition.epoch == sys.session.epoch)
  {
    RunKeepsInv(INITIAL, steps);
    var sys := Run(INITIAL, steps);
    if !sys.session.pending {
      assert sys.flights[0] in sys.flights;
    }
  }

  /** No flight has been overtaken by a full turn of the epoch counter. */
  ghost predicate Unwrapped(sys: System) {
    forall f <- sys.flights :: sys.bumps - f.begunAt < EPOCHS
  }

  /** From any such state, whatever was in flight, successful driver calls close the
      session with the captured color as the recorded one. */
  lemma OwedRestorationCanAlwaysComplete(steps: seq<Step>)
    requires var s := Run(INITIAL, steps).session; s.baseline.Some? && !s.desired && !s.latched
    requires Unwrapped(Run(INITIAL, steps))
    ensures var sys := Run(INITIAL, steps);
            var closed := Run(INITIAL, steps + [Complete(0, true), Start, Complete(0, true)]);
            && closed.session.baseline.None?
            && closed.flights == []
            && closed.observed == sys.session.baseline.value
            && !closed.session.latched
  {
    RunKeepsInv(INITIAL, steps);
    var sys := Run(INITIAL, steps);
    var drain := [Complete(0, true), Start, Complete(0, true)];
    RunAppend(INITIAL, steps, drain);
    var s1 := Next(sys, drain[0]);
    var s2 := Next(s1, drain[1]);
    assert drain[1..][1..] == [drain[2]] && drain[1..][1..][1..] == [];
    assert Run(sys, drain) == Run(s2, [drain[2]]) == Next(s2, drain[2]);
    if |sys.flights| == 1 {
      var f := sys.flights[0];
      assert FlightValid(sys, f);
      CompletionIsCurrentIff(sys, f);
    }
  }

  // ---------- epochs ----------

  /** A completion is taken for the current request exactly when the number of
      bumps since it began is a multiple of 2^64. */
  lemma CompletionIsCurrentIff(sys: System, f: Flight)
    requires Inv(sys) && f in sys.flights
    ensures f.transition.epoch == sys.session.epoch <==> (sys.bumps - f.begunAt) % EPOCHS == 0
    ensures sys.bumps - f.begunAt < EPOCHS ==> (f.transition.epoch == sys.session.epoch <==> f.begunAt == sys.bumps)
  {
    assert FlightValid(sys, f);
    CongruentIff(sys.bumps, f.begunAt);
  }

  lemma CongruentIff(m: nat, n: nat)
    requires n <= m
    ensures m % EPOCHS == n % EPOCHS <==> (m - n) % EPOCHS == 0
  {
    var q, r := m / EPOCHS - n / EPOCHS, m % EPOCHS - n % EPOCHS;
    assert m - n == EPOCHS * q + r;
  }

  /** Without any bound on the number of bumps: a flight carrying the session's
      epoch agrees with the session about whether HDR is wanted. */
  lemma EpochSoundness(steps: seq<Step>, f: Flight)
    requires var sys := Run(INITIAL, steps);
             f in sys.flights && f.transition.epoch == sys.session.epoch && !Relinquished(sys.session)
    ensures f.transition.enabling == Run(INITIAL, steps).session.desired
  {
    RunKeepsInv(INITIAL, steps);
    assert FlightValid(Run(INITIAL, steps), f);
  }

  /** The same in every reachable state, relinquished ones included, in which no
      flight has been overtaken by a full turn of the counter. */
  lemma EpochSoundnessEverywhere(steps: seq<Step>, f: Flight)
    requires var sys := Run(INITIAL, steps);
             f in sys.flights && f.transition.epoch == sys.session.epoch && Unwrapped(sys)
    ensures f.transition.enabling == Run(INITIAL, steps).session.desired
  {
    RunKeepsInv(INITIAL, steps);
    var sys := Run(INITIAL, steps);
    assert FlightValid(sys, f);
    CompletionIsCurrentIff(sys, f);
  }

  ghost predicate Overruled(sys: System) {
    Relinquished(sys.session) && forall f <- sys.flights :: f.begunAt < sys.bumps
  }

  lemma {:induction false} OverruledForGood(sys: System, steps: seq<Step>)
    requires Inv(sys) && Overruled(sys) && Unwrapped(sys)
    ensures Overruled(Run(sys, steps)) && Unwrapped(Run(sys, steps)) && Inv(Run(sys, steps))
    ensures Run(sys, steps).bumps == sys.bumps
    decreases |steps|
  {
    if steps != [] {
      var step := steps[0];
      NextKeepsInv(sys, step);
      if step.Complete? && step.flight < |sys.flights| {
        CompletionIsCurrentIff(sys, sys.flights[step.flight]);
      }
      OverruledForGood(Next(sys, step), steps[1..]);
    }
  }

  /** A flight that outlives a conflicting foreign set is stale from then on, under
      every continuation, so its completion cannot move the relinquished session. */
  lemma ConflictOverrulesFlights(sys: System, color: Color, steps: seq<Step>, f: Flight)
    requires Inv(sys) && Conflicts(sys.session, color)
    requires Unwrapped(Next(sys, External(color)))
    requires f in Run(Next(sys, External(color)), steps).flights
    ensures f.transition.epoch != Run(Next(sys, External(color)), steps).session.epoch
  {
    var next := Next(sys, External(color));
    NextKeepsInv(sys, External(color));
    BumpParity(sys.session.epoch);
    forall g | g in next.flights ensures g.begunAt < next.bumps {
      assert FlightValid(sys, g);
    }
    OverruledForGood(next, steps);
    CompletionIsCurrentIff(Run(next, steps), f);
  }

  /** A stale completion changes nothing but the in-progress flag and the latch. */
  lemma StaleCompletionIsHarmless(sys: System, i: nat, ok: bool)
    requires Inv(sys) && i < |sys.flights|
    requires (sys.bumps - sys.flights[i].begunAt) % EPOCHS != 0
    ensures Next(sys, Complete(i, ok)).session
            == sys.session.(inProgress := false, latched := sys.session.latched || !ok)
  {
    CompletionIsCurrentIff(sys, sys.flights[i]);
  }

  /** With fewer than 2^64 bumps during a driver call, a completion that closes a
      session restored exactly that session's captured color. */
  lemma CompletionClosesItsOwnSession(sys: System, i: nat, ok: bool)
    requires Inv(sys) && Unwrapped(sys) && i < |sys.flights|
    requires sys.session.baseline.Some? && Next(sys, Complete(i, ok)).session.baseline.None?
    ensures ok && sys.flights[i].begunAt == sys.bumps
    ensures Next(sys, Complete(i, ok)).observed == sys.session.baseline.value
  {
    assert FlightValid(sys, sys.flights[i]);
    CompletionIsCurrentIff(sys, sys.flights[i]);
  }

  function Toggles(n: nat): seq<Step> {
    if n == 0 then [] else [Query(true), Query(false)] + Toggles(n - 1)
  }

  lemma {:induction false} RunToggles(sys: System, n: nat)
    requires Inv(sys)
    requires sys.session.baseline.Some? && !sys.session.desired && !sys.session.latched && sys.session.pending
    ensures Run(sys, Toggles(n))
            == sys.(session := sys.session.(epoch := (sys.bumps + 2 * n) % EPOCHS), bumps := sys.bumps + 2 * n)
    decreases n
  {
    if n != 0 {
      var s1 := Next(sys, Query(true));
      var s2 := Next(s1, Query(false));
      NextKeepsInv(sys, Query(true));
      NextKeepsInv(s1, Query(false));
      BumpParity(sys.session.epoch);
      BumpParity(s1.session.epoch);
      assert s2 == sys.(session := sys.session.(epoch := s2.session.epoch), bumps := sys.bumps + 2);
      RunToggles(s2, n - 1);
      assert Toggles(n)[1..] == [Query(false)] + Toggles(n - 1);
      assert Toggles(n)[1..][1..] == Toggles(n - 1);
      assert Run(sys, Toggles(n)) == Run(s1, Toggles(n)[1..]) == Run(s2, Toggles(n - 1));
    }
  }

  const LEFTOVER: seq<Step> :=
    [Query(true), Start, Complete(0, true), Query(false)] + [Start, External(SDR), External(1), Query(true)]

  /** A restore of one session is still in flight when another session opens. */
  lemma LeftoverRestore()
    ensures Run(INITIAL, LEFTOVER)
            == System(Session(Some(1), true, true, true, false, 3), 1, [Flight(Transition(SDR, false, 2), 2)], 3)
  {
    var a := [Query(true), Start, Complete(0, true), Query(false)];
    var b := [Start, External(SDR), External(1), Query(true)];
    UnfoldFour(INITIAL, a);
    UnfoldFour(Run(INITIAL, a), b);
    RunAppend(INITIAL, a, b);
  }

  /** The bound matters: after exactly 2^64 bumps a restore left over from one
      session closes another session and leaves it at the wrong color. */
  lemma WrappedCompletionClosesAnotherSession()
    ensures exists steps ::
              var sys := Run(INITIAL, steps);
              && |sys.flights| == 1
              && sys.bumps - sys.flights[0].begunAt == EPOCHS
              && sys.session.baseline == Some(1) && !sys.session.latched
              && var after := Next(sys, Complete(0, true)); after.session.baseline.None? && after.observed != 1
  {
    LeftoverRestore();
    var sys := Run(INITIAL, LEFTOVER);
    var armed := Next(sys, Query(false));
    RunKeepsInv(INITIAL, LEFTOVER);
    NextKeepsInv(sys, Query(false));
    var n := (EPOCHS - 2) / 2;
    RunToggles(armed, n);
    var c := [Query(false)] + Toggles(n);
    assert c[1..] == Toggles(n);
    assert Run(sys, c) == Run(armed, Toggles(n));
    RunAppend(INITIAL, LEFTOVER, c);
    var wrapped := Run(INITIAL, LEFTOVER + c);
    assert wrapped.bumps == 2 + EPOCHS;
    assert wrapped.session.epoch == 2;
  }

  // ---------- the captured baseline ----------

  predicate StaysOpen(sys: System, steps: seq<Step>)
    decreases |steps|
  {
    sys.session.baseline.Some? && (steps == [] || StaysOpen(Next(sys, steps[0]), steps[1..]))
  }

  /** While a session stays open its baseline never changes. */
  lemma {:induction false} BaselineIsCapturedOnce(sys: System, steps: seq<Step>)
    requires StaysOpen(sys, steps)
    ensures Run(sys, steps).session.baseline == sys.session.baseline
    decreases |steps|
  {
    if steps != [] {
      BaselineIsCapturedOnce(Next(sys, steps[0]), steps[1..]);
    }
  }

  /** When a session opens, its baseline is the color observed at that moment. */
  lemma CaptureIsTheObservedColor(sys: System, step: Step)
    requires sys.session.baseline.None? && Next(sys, step).session.baseline.Some?
    ensures step == Query(true) && !sys.session.latched
    ensures Next(sys, step).session.baseline.value == sys.observed
    ensures Next(sys, step).session.desired && Next(sys, step).session.pending
  {
  }

  /** Exactly how the pending flag comes to stand without a session, if fewer than 2^64
      bumps pass during a driver call: the last restore succeeds while a reconfiguration
      has re-armed it. */
  lemma PendingOutlivesItsSessionIff(sys: System, step: Step)
    requires Inv(sys) && Unwrapped(sys) && !(sys.session.pending && sys.session.baseline.None?)
    ensures var s := Next(sys, step).session;
            s.pending && s.baseline.None? <==>
              && sys.session.pending && step.Complete? && step.succeeded && step.flight < |sys.flights|
              && var t := sys.flights[step.flight].transition; !t.enabling && t.epoch == sys.session.epoch
  {
    if step.Complete? && step.flight < |sys.flights| {
      assert FlightValid(sys, sys.flights[step.flight]);
      CompletionIsCurrentIff(sys, sys.flights[step.flight]);
    }
  }

  /** The pending flag alone promises nothing: a reconfiguration during the last
      restore leaves it standing after the session has closed. */
  lemma PendingMayOutliveItsSession()
    ensures exists steps ::
              var s := Run(INITIAL, steps).session; s.pending && s.baseline.None? && !s.inProgress && !Ready(s)
  {
    var a := [Query(true), Start, Complete(0, true), Query(false)];
    var b := [Start, Reconfigure, Complete(0, true), Reconfigure];
    UnfoldFour(INITIAL, a);
    UnfoldFour(Run(INITIAL, a), b);
    RunAppend(INITIAL, a, b);
    assert Run(INITIAL, a + b).session == Session(None, false, true, false, false, 2);
  }

  const OVERRULED: seq<Step> := [Query(true), Start] + [Query(false)]

  /** The bound is needed here too: after a conflict, 2^64 bumps late, a failed enabling
      call is taken for a current one and sets the flag on a relinquished chain. */
  lemma WrappedFailureLeavesPending()
    ensures exists steps ::
              var sys := Run(INITIAL, steps);
              && Relinquished(sys.session) && |sys.flights| == 1
              && sys.bumps - sys.flights[0].begunAt == EPOCHS
              && !sys.session.pending
              && var s := Next(sys, Complete(0, false)).session; s.pending && s.baseline.None?
  {
    var s1 := Next(INITIAL, Query(true));
    var s2 := Next(s1, Start);
    var s3 := Next(s2, Query(false));
    assert OVERRULED[1..] == [Start, Query(false)] && OVERRULED[1..][1..] == [Query(false)];
    assert OVERRULED[1..][1..][1..] == [];
    assert Run(INITIAL, OVERRULED) == Run(s1, OVERRULED[1..]) == Run(s2, [Query(false)]) == Run(s3, []) == s3;
    RunKeepsInv(INITIAL, OVERRULED);
    var n := (EPOCHS - 2) / 2;
    RunToggles(s3, n);
    var c := [External(PQ)];
    assert c[1..] == [];
    var wrapped := Run(s3, Toggles(n));
    assert wrapped.bumps == EPOCHS && wrapped.session.epoch == 0;
    RunAppend(INITIAL, OVERRULED, Toggles(n));
    RunAppend(INITIAL, OVERRULED + Toggles(n), c);
    assert Run(INITIAL, OVERRULED + Toggles(n) + c) == Run(wrapped, c) == Next(wrapped, External(PQ));
  }
}
