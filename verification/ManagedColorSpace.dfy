/** The per-swap-chain state machine that decides which color space the next
    Present must carry. `Session` is its value; the functions below say what one
    critical section does to that value, and the class updates it in place. */
module ManagedColorSpace {
  import opened Wrappers

  /** A DXGI color space, a `u32`. */
  type Color = c: nat | c < 0x1_0000_0000
  const SDR: Color := 0
  const PQ: Color := 12

  /** Request epochs are `u64` counters that wrap. */
  const EPOCHS: nat := 0x1_0000_0000_0000_0000
  type Epoch = e: nat | e < EPOCHS

  datatype Session = Session(
    baseline: Option<Color>,   // the color to restore, captured when the session opens
    desired: bool,
    pending: bool,
    inProgress: bool,
    latched: bool,
    epoch: Epoch)

  datatype Transition = Transition(target: Color, enabling: bool, epoch: Epoch)

  const FRESH: Session := Session(None, false, false, false, false, 0)

  function Bump(epoch: Epoch): Epoch {
    (epoch + 1) % EPOCHS
  }

  /** Flips the desired state and arms a transition for the next Present. */
  function Retarget(s: Session, hdr: bool): Session {
    s.(desired := hdr, pending := true, epoch := Bump(s.epoch))
  }

  function Request(s: Session, hdr: bool, current: Color): Session {
    if hdr then
      if s.latched then s
      else if s.baseline.None? then Retarget(s, true).(baseline := Some(current))
      else if !s.desired then Retarget(s, true)
      else s
    else if s.baseline.Some? && s.desired then Retarget(s, false)
    else s
  }

  predicate Accepts(s: Session, hdr: bool) {
    !(hdr && s.latched)
  }

  predicate Ready(s: Session) {
    s.pending && !s.inProgress && s.baseline.Some?
  }

  /** The color the session expects the chain to carry. */
  function Expected(s: Session): Color
    requires s.baseline.Some?
  {
    if s.desired then PQ else s.baseline.value
  }

  function Begin(s: Session): (Session, Option<Transition>) {
    if Ready(s) then
      (s.(pending := false, inProgress := true), Some(Transition(Expected(s), s.desired, s.epoch)))
    else
      (s, None)
  }

  function Finish(s: Session, t: Transition, succeeded: bool): Session {
    var current := t.epoch == s.epoch;
    var s1 := s.(inProgress := false);
    if succeeded then
      if current && !t.enabling then s1.(baseline := None) else s1
    else if current && t.enabling then
      Retarget(s1.(latched := true), false)
    else
      s1.(latched := true)
  }

  function Reapply(s: Session): Session {
    if s.baseline.Some? && !s.latched then s.(pending := true) else s
  }

  predicate Conflicts(s: Session, requested: Color) {
    s.baseline.Some? && requested != Expected(s)
  }

  function ObserveExternal(s: Session, requested: Color): Session {
    if s.baseline.None? then s
    else if requested == Expected(s) then
      s.(pending := false, baseline := if s.desired then s.baseline else None)
    else
      Session(None, false, false, false, true, Bump(s.epoch))
  }

  /** After a foreign set nothing is left to start. */
  lemma ForeignSetDisarms(s: Session, requested: Color)
    ensures !Ready(ObserveExternal(s, requested))
    ensures s.baseline.Some? ==> !ObserveExternal(s, requested).pending
  {
  }

  /** The state as the program keeps it: six fields updated under a lock. */
  class ManagedColorSpaceState {
    var restoreColorSpace: Option<Color>
    var desiredHdr: bool
    var transitionPending: bool
    var transitionInProgress: bool
    var failureLatched: bool
    var requestEpoch: Epoch

    function View(): Session
      reads this
    {
      Session(restoreColorSpace, desiredHdr, transitionPending, transitionInProgress, failureLatched, requestEpoch)
    }

    constructor ()
      ensures View() == FRESH
    {
      restoreColorSpace := None;
      desiredHdr := false;
      transitionPending := false;
      transitionInProgress := false;
      failureLatched := false;
      requestEpoch := 0;
    }

    method RequestHdr(hdr: bool, current: Color) returns (accepted: bool)
      modifies this
      ensures View() == Request(old(View()), hdr, current)
      ensures accepted <==> Accepts(old(View()), hdr)
      ensures !accepted <==> hdr && old(failureLatched)
      // A request that asks for nothing new, or that the latch rejects, changes nothing.
      ensures (old(restoreColorSpace).Some? && old(desiredHdr) == hdr) || (hdr && old(failureLatched)) ==>
                View() == old(View())
      ensures desiredHdr != old(desiredHdr) ==> requestEpoch != old(requestEpoch) && transitionPending
    {
      if hdr && failureLatched {
        return false;
      }
      if hdr {
        if restoreColorSpace.None? {
          restoreColorSpace := Some(current);
          desiredHdr := true;
          transitionPending := true;
          requestEpoch := Bump(requestEpoch);
        } else if !desiredHdr {
          desiredHdr := true;
          transitionPending := true;
          requestEpoch := Bump(requestEpoch);
        }
      } else if restoreColorSpace.Some? && desiredHdr {
        desiredHdr := false;
        transitionPending := true;
        requestEpoch := Bump(requestEpoch);
      }
      return true;
    }

    method BeginTransition() returns (transition: Option<Transition>)
      modifies this
      ensures (View(), transition) == Begin(old(View()))
      ensures transition.Some? ==> old(transitionPending) && !old(transitionInProgress)
      ensures transition.Some? && desiredHdr ==> transition.value.target == 12
      ensures transition.Some? && !desiredHdr ==> old(restoreColorSpace) == Some(transition.value.target)
    {
      if !transitionPending || transitionInProgress {
        return None;
      }
      if restoreColorSpace.None? {
        return None;
      }
      transitionPending := false;
      transitionInProgress := true;
      return Some(Transition(if desiredHdr then PQ else restoreColorSpace.value, desiredHdr, requestEpoch));
    }

    method FinishTransition(transition: Transition, succeeded: bool)
      modifies this
      ensures View() == Finish(old(View()), transition, succeeded)
      ensures !transitionInProgress && (failureLatched <==> old(failureLatched) || !succeeded)
    {
      transitionInProgress := false;
      if succeeded {
        if transition.epoch == requestEpoch && !transition.enabling {
          restoreColorSpace := None;
        }
        return;
      }
      failureLatched := true;
      if transition.epoch == requestEpoch && transition.enabling {
        desiredHdr := false;
        transitionPending := true;
        requestEpoch := Bump(requestEpoch);
      }
    }

    method ReapplyAfterReconfiguration()
      modifies this
      ensures View() == Reapply(old(View()))
      ensures transitionPending <==> old(transitionPending) || (restoreColorSpace.Some? && !failureLatched)
    {
      if restoreColorSpace.Some? && !failureLatched {
        transitionPending := true;
      }
    }

    method ObserveExternalSet(requested: Color) returns (conflict: bool)
      modifies this
      ensures View() == ObserveExternal(old(View()), requested)
      ensures conflict <==> Conflicts(old(View()), requested)
      ensures conflict <==> old(restoreColorSpace).Some?
                            && requested != if old(desiredHdr) then 12 else old(restoreColorSpace.value)
      ensures conflict ==> restoreColorSpace.None? && !desiredHdr && !transitionInProgress && failureLatched
      ensures old(restoreColorSpace).Some? ==> !transitionPending
      ensures old(restoreColorSpace).None? ==> View() == old(View())
    {
      if restoreColorSpace.None? {
        return false;
      }
      var expected := if desiredHdr then PQ else restoreColorSpace.value;
      if requested == expected {
        transitionPending := false;
        if !desiredHdr {
          restoreColorSpace := None;
        }
        return false;
      }
      restoreColorSpace := None;
      desiredHdr := false;
      transitionPending := false;
      transitionInProgress := false;
      failureLatched := true;
      requestEpoch := Bump(requestEpoch);
      return true;
    }
  }
}
