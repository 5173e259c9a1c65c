/**
 The whole update protocol as one transition system: two links over one OTA engine, the
 hold counter, the rollback watch, the bootloader and the crash-loop handover. Each step is
 one critical section of the firmware; a reset may strike between any two of them.
 */
module UpdateSystem {
  import opened Bytes
  import opened Options
  import opened FlashModel
  import opened OtaModel
  import opened ServiceModel
  import H = HealthModel

  datatype System = System(
    engine: Engine,
    links: seq<Link>,
    holds: int,
    watch: H.Watch,
    mode: Mode,
    marker: nat,
    rollingBack: bool,     // the polling loop found the image unconfirmed and is about to roll back
    restarting: bool       // a rollback or a handover went through; only a reset comes next
  )

  datatype Step =
    | Frame(link: nat, request: Request, now: int)
    | ReplySent(link: nat, queued: bool)
    | ExpiryCheck(link: nat, maxIdle: int, now: int)
    | LinkLost(link: nat)
    | HealthCheck(now: int)
    | RollBack                                                 // the rollback a health check decided on
    | Reject                                                   // a fatal init failure
    | Reset(powerOn: bool, crashes: seq<bool>, now: int)       // also a power loss
    | CutBoot                                                  // one whose boot ends before its prologue

  /** Everything in RAM starts over with this step. */
  predicate StartsOver(step: Step) {
    step.Reset? || step.CutBoot?
  }

  predicate WellFormed(s: System) {
    |s.links| == 2
  }

  /** Steps that can happen: a link exists, a polling loop about to roll back does nothing else, and
      neither does a device about to restart. */
  predicate Enabled(s: System, step: Step) {
    && (s.restarting ==> StartsOver(step))
    && (step.RollBack? ==> s.rollingBack)
    && (s.rollingBack ==> !step.HealthCheck? && !step.Reject? && !step.ExpiryCheck?)
    && (step.Frame? || step.ReplySent? || step.ExpiryCheck? || step.LinkLost? ==> step.link < 2)
  }

  function ViewOf(s: System, i: nat): View
    requires WellFormed(s) && i < 2
  {
    View(s.engine, s.links[i], s.holds, s.mode)
  }

  function WithView(s: System, i: nat, v: View): System
    requires WellFormed(s) && i < 2
  {
    s.(engine := v.engine, links := s.links[i := v.link], holds := v.holds, mode := v.mode)
  }

  /** Everything in RAM starts over; the flash and the handover marker stay. */
  function Restarted(s: System, f: Flash, powerOn: bool, crashes: seq<bool>, now: int): System {
    var b := H.BootDevice(f, s.marker, powerOn, crashes);
    System(Idle(b.flash), [FRESH_LINK, FRESH_LINK], 0, H.StartWatch(PendingVerify(b.flash), now),
           s.mode, b.marker, false, b.handedOver)
  }

  /** The bootloader ran, and power is lost before the prologue: only another reset can follow. */
  function CutShort(s: System): System {
    System(Idle(Boot(s.engine.flash)), [FRESH_LINK, FRESH_LINK], 0, H.StartWatch(false, 0), s.mode, s.marker, false, true)
  }

  /** One health check with what the polling loop does about it. At the end of the hold it looks at the
      image once more; the rollback itself is a call of its own, and other tasks run in between. */
  function CheckHealth(s: System, now: int): System {
    var t := H.Tick(s.watch, PendingVerify(s.engine.flash), now);
    match t.action
    case Nothing => s.(watch := t.watch)
    case HoldOutput => s.(watch := t.watch, holds := s.holds + 1)
    case RollBack =>
      if PendingVerify(s.engine.flash) then s.(watch := t.watch, rollingBack := true)
      else s.(watch := t.watch, holds := s.holds - 1)
  }

  /** The image is marked invalid and a restart is under way; the hold stays up until it comes. */
  function RolledBack(s: System): System {
    s.(engine := s.engine.(flash := MarkInvalidAndRollback(s.engine.flash)), restarting := true)
  }

  /** The engine call, which does not look at the image any more; it returns only when it fails. */
  function CarryOutRollback(s: System): System {
    if RollbackPossible(s.engine.flash) then RolledBack(s)
    else s.(rollingBack := false, holds := s.holds - 1)
  }

  function Next(s: System, step: Step): System
    requires WellFormed(s) && Enabled(s, step)
  {
    match step
    case Frame(i, r, now) => WithView(s, i, Handle(ViewOf(s, i), r, now).view)
    case ReplySent(i, queued) => WithView(s, i, AfterReply(ViewOf(s, i), queued))
    case ExpiryCheck(i, maxIdle, now) => WithView(s, i, Expire(ViewOf(s, i), maxIdle, now))
    case LinkLost(i) => WithView(s, i, AbortUpdate(ViewOf(s, i)))
    case HealthCheck(now) => CheckHealth(s, now)
    case RollBack => CarryOutRollback(s)
    case Reject => if H.RollbackNow(s.engine.flash).Some? then RolledBack(s) else s
    case Reset(powerOn, crashes, now) => Restarted(s, s.engine.flash, powerOn, crashes, now)
    case CutBoot => CutShort(s)
  }

  /** A brand-new board after its first boot, whatever its marker memory holds. */
  function Factory(desc: Descriptor, mode: Mode, marker: nat, now: int): System {
    Restarted(System(Idle(Format(desc)), [FRESH_LINK, FRESH_LINK], 0, H.StartWatch(false, now), mode, marker, false, false),
              Format(desc), true, [], now)
  }

  predicate Runnable(s: System, steps: seq<Step>)
    decreases |steps|
  {
    WellFormed(s) && (steps == [] || (Enabled(s, steps[0]) && Runnable(Next(s, steps[0]), steps[1..])))
  }

  function Run(s: System, steps: seq<Step>): System
    requires Runnable(s, steps)
    decreases |steps|
  {
    if steps == [] then s else Run(Next(s, steps[0]), steps[1..])
  }

  // --------------------------------------------------------------------------
  // The invariant
  // --------------------------------------------------------------------------

  predicate Invariant(s: System) {
    && WellFormed(s)
    && EngineSafe(s.engine)
    && s.engine.active == (s.links[0].owner || s.links[1].owner)
    && !(s.links[0].owner && s.links[1].owner)
    && (forall i :: 0 <= i < 2 && s.links[i].owner ==> s.links[i].holding)
    && s.holds == Holders(s)
    && (s.restarting ==> !s.engine.active)
  }

  /** How many parties hold the output: the links, and the polling loop for its watch. */
  function Holders(s: System): nat
    requires WellFormed(s)
  {
    Count(s.links[0].holding) + Count(s.links[1].holding) + Count(s.watch.holding) + Count(s.rollingBack)
  }

  lemma FactoryInvariant(desc: Descriptor, mode: Mode, marker: nat, now: int)
    ensures Invariant(Factory(desc, mode, marker, now))
  {
    FormatIsBootable(desc);
    H.BootDeviceKeepsBootable(Format(desc), marker, true, []);
  }

  lemma RestartedInvariant(s: System, f: Flash, powerOn: bool, crashes: seq<bool>, now: int)
    requires Bootable(f)
    ensures Invariant(Restarted(s, f, powerOn, crashes, now))
  {
    H.BootDeviceKeepsBootable(f, s.marker, powerOn, crashes);
  }

  /** A rollback leaves a flash whose next boot is safe, whatever the image that was running. */
  lemma RolledBackInvariant(s: System)
    requires Invariant(s) && RollbackPossible(s.engine.flash)
    ensures Invariant(RolledBack(s))
  {
  }

  lemma ViewStepInvariant(s: System, i: nat, w: View)
    requires Invariant(s) && !s.restarting && i < 2
    requires
      var rival := s.links[1 - i].owner;
      Consistent(w, rival) && Foreign(w) == Foreign(ViewOf(s, i))
    ensures Invariant(WithView(s, i, w))
  {
  }

  lemma FrameInvariant(s: System, i: nat, r: Request, now: int)
    requires Invariant(s) && !s.restarting && i < 2
    ensures Invariant(WithView(s, i, Handle(ViewOf(s, i), r, now).view))
  {
    HandleKeepsConsistent(ViewOf(s, i), r, now, s.links[1 - i].owner);
    ViewStepInvariant(s, i, Handle(ViewOf(s, i), r, now).view);
  }

  lemma LinkStepInvariant(s: System, i: nat, queued: bool, maxIdle: int, now: int)
    requires Invariant(s) && !s.restarting && i < 2
    ensures Invariant(WithView(s, i, AfterReply(ViewOf(s, i), queued)))
    ensures Invariant(WithView(s, i, Expire(ViewOf(s, i), maxIdle, now)))
    ensures Invariant(WithView(s, i, AbortUpdate(ViewOf(s, i))))
  {
    var v := ViewOf(s, i);
    OthersKeepConsistent(v, queued, maxIdle, now, s.links[1 - i].owner);
    ViewStepInvariant(s, i, AfterReply(v, queued));
    ViewStepInvariant(s, i, Expire(v, maxIdle, now));
    ViewStepInvariant(s, i, AbortUpdate(v));
  }

  lemma HealthInvariant(s: System, now: int)
    requires Invariant(s) && !s.restarting
    requires !s.rollingBack
    ensures Invariant(CheckHealth(s, now))
  {
  }

  lemma NextInvariant(s: System, step: Step)
    requires Invariant(s) && Enabled(s, step)
    ensures Invariant(Next(s, step))
  {
    match step
    case Frame(i, r, now) => FrameInvariant(s, i, r, now);
    case ReplySent(i, queued) => LinkStepInvariant(s, i, queued, 0, 0);
    case ExpiryCheck(i, maxIdle, now) => LinkStepInvariant(s, i, false, maxIdle, now);
    case LinkLost(i) => LinkStepInvariant(s, i, false, 0, 0);
    case HealthCheck(now) => HealthInvariant(s, now);
    case RollBack =>
      if RollbackPossible(s.engine.flash) {
        RolledBackInvariant(s);
      }
    case Reject =>
      if H.RollbackNow(s.engine.flash).Some? {
        RolledBackInvariant(s);
      }
    case Reset(powerOn, crashes, now) => RestartedInvariant(s, s.engine.flash, powerOn, crashes, now);
    case CutBoot => BootKeepsBootable(s.engine.flash);
  }

  lemma {:induction false} RunInvariant(s: System, steps: seq<Step>)
    requires Invariant(s) && Runnable(s, steps)
    ensures Invariant(Run(s, steps))
    decreases |steps|
  {
    if steps != [] {
      NextInvariant(s, steps[0]);
      RunInvariant(Next(s, steps[0]), steps[1..]);
    }
  }

  /**
   In every run of a device from the factory on, whatever the two links, the transport, the
   polling loop and the power supply do:
   the running and the boot slot hold complete images and an unconfirmed image has one to
   fall back to; a session is active exactly when one link, and never both, owns it; the
   counter is the number of parties holding; and during an upload the output is held.
   */
  lemma EveryRunIsSafe(desc: Descriptor, mode: Mode, marker: nat, now: int, steps: seq<Step>)
    requires Runnable(Factory(desc, mode, marker, now), steps)
    ensures
      var s := Run(Factory(desc, mode, marker, now), steps);
      && WellFormed(s)
      && Bootable(s.engine.flash)
      && (s.engine.active <==> s.links[0].owner != s.links[1].owner)
      && !(s.links[0].owner && s.links[1].owner)
      && s.holds == Holders(s)
      && (s.engine.active ==> s.holds > 0 && !PendingVerify(s.engine.flash))
  {
    FactoryInvariant(desc, mode, marker, now);
    RunInvariant(Factory(desc, mode, marker, now), steps);
  }

  // --------------------------------------------------------------------------
  // An unconfirmed image does not come back
  // --------------------------------------------------------------------------

  /** Steps that neither confirm the running image nor reset the device. */
  predicate Quiet(steps: seq<Step>) {
    forall i :: 0 <= i < |steps| ==>
      !StartsOver(steps[i]) && !steps[i].Reject? && !(steps[i].Frame? && steps[i].request.kind.ConfirmFrame?)
  }

  lemma QuietRequest(v: View, r: Request, now: int)
    requires EngineSafe(v.engine) && PendingVerify(v.engine.flash) && !r.kind.ConfirmFrame?
    ensures
      var f, g := v.engine.flash, Handle(v, r, now).view.engine.flash;
      PendingVerify(g) && g.running == f.running
  {
    assert !v.engine.active;
    match r.kind
    case RevertFrame =>
    case _ =>
  }

  /** The image in slot r was given up: the other one runs, and no handover is under way. */
  predicate GivenUp(s: System, r: nat, state: ImageState) {
    && r < 2
    && s.engine.flash.running == 1 - r
    && s.engine.flash.slots[r].state == state
    && !s.restarting
  }

  /** The image in slot r was rejected: a restart into the other one is under way. */
  predicate Rejected(s: System, r: nat) {
    && r < 2 && s.restarting
    && s.engine.flash.running == r && s.engine.flash.boot == 1 - r
    && s.engine.flash.slots[r].state.Invalid? && Complete(s.engine.flash.slots[1 - r])
  }

  /** Without a confirmation or a reset an unconfirmed image stays, and stays unconfirmed, exactly until
      a rollback that is possible. */
  lemma QuietStep(s: System, step: Step)
    requires Invariant(s) && Enabled(s, step) && Quiet([step])
    requires PendingVerify(s.engine.flash)
    ensures
      var t := Next(s, step);
      var f := s.engine.flash;
      if step.RollBack? && RollbackPossible(f) then Rejected(t, f.running)
      else PendingVerify(t.engine.flash) && t.engine.flash.running == f.running && !t.restarting
  {
    assert [step][0] == step;
    if step.Frame? {
      QuietRequest(ViewOf(s, step.link), step.request, step.now);
    }
  }

  /** The reset that follows leaves the unconfirmed image behind, aborted, and the boot prologue hands
      over nothing: an aborted image cannot take over. */
  lemma ResetAbandons(s: System, powerOn: bool, crashes: seq<bool>, now: int)
    requires Invariant(s) && PendingVerify(s.engine.flash)
    ensures GivenUp(Restarted(s, s.engine.flash, powerOn, crashes, now), s.engine.flash.running, Aborted)
  {
    BootKeepsBootable(s.engine.flash);
  }

  /** So does the reset that ends a rollback; the image stays invalid. */
  lemma ResetAfterRollback(s: System, r: nat, powerOn: bool, crashes: seq<bool>, now: int)
    requires Invariant(s) && Rejected(s, r)
    ensures GivenUp(Restarted(s, s.engine.flash, powerOn, crashes, now), r, Invalid)
  {
  }

  /**
   An image that boots unconfirmed and gets no confirmation runs until the next reset and no
   longer: that reset, be it a power cycle, a crash, a console request or the rollback at the
   deadline, runs the other image and leaves this one rejected, out of reach of a handover.
   */
  lemma {:induction false} UnconfirmedNeverReturns(s: System, steps: seq<Step>, powerOn: bool, crashes: seq<bool>, now: int)
    requires Invariant(s) && Runnable(s, steps) && Quiet(steps)
    requires PendingVerify(s.engine.flash) && !s.restarting
    ensures
      var r := s.engine.flash.running;
      var t := Run(s, steps);
      var next := Restarted(t, t.engine.flash, powerOn, crashes, now);
      if t.restarting then Rejected(t, r) && GivenUp(next, r, Invalid)
      else PendingVerify(t.engine.flash) && t.engine.flash.running == r && GivenUp(next, r, Aborted)
    decreases |steps|
  {
    if steps == [] {
      ResetAbandons(s, powerOn, crashes, now);
    } else {
      var t := Next(s, steps[0]);
      assert Quiet([steps[0]]);
      NextInvariant(s, steps[0]);
      QuietStep(s, steps[0]);
      if t.restarting {
        assert steps[1..] == [];
        ResetAfterRollback(t, s.engine.flash.running, powerOn, crashes, now);
      } else {
        UnconfirmedNeverReturns(t, steps[1..], powerOn, crashes, now);
      }
    }
  }

  // --------------------------------------------------------------------------
  // A confirmation on the last instant
  // --------------------------------------------------------------------------

  predicate Confirms(step: Step) {
    step.Frame? && step.request.kind.ConfirmFrame?
  }

  /** What a run has seen of the rollback under way, if one is: whether the image was confirmed since the
      polling loop looked at it. */
  function Noticed(s: System, step: Step, before: Option<bool>): Option<bool>
    requires WellFormed(s) && Enabled(s, step)
  {
    if !Next(s, step).rollingBack then None
    else Some(before.Some? && (before.value || Confirms(step)))
  }

  function NoticedInRun(s: System, steps: seq<Step>, before: Option<bool>): Option<bool>
    requires Runnable(s, steps)
    decreases |steps|
  {
    if steps == [] then before else NoticedInRun(Next(s, steps[0]), steps[1..], Noticed(s, steps[0], before))
  }

  /** While a rollback is under way, the image is confirmed exactly if that was noticed. */
  predicate Notices(s: System, noticed: Option<bool>) {
    && (s.rollingBack <==> noticed.Some?)
    && (s.rollingBack && !s.restarting ==> (noticed.value <==> !PendingVerify(s.engine.flash)))
  }

  lemma ConfirmRequest(v: View, r: Request, now: int, rival: bool)
    requires Consistent(v, rival)
    ensures
      var f, g := v.engine.flash, Handle(v, r, now).view.engine.flash;
      PendingVerify(g) <==> PendingVerify(f) && !r.kind.ConfirmFrame?
  {
    match r.kind
    case RevertFrame =>
    case _ =>
  }

  lemma StepNotices(s: System, step: Step, noticed: Option<bool>)
    requires Invariant(s) && Enabled(s, step) && Notices(s, noticed)
    ensures Notices(Next(s, step), Noticed(s, step, noticed))
  {
    if step.Frame? {
      ConfirmRequest(ViewOf(s, step.link), step.request, step.now, s.links[1 - step.link].owner);
    } else {
      OtherStepNotices(s, step, noticed);
    }
  }

  lemma OtherStepNotices(s: System, step: Step, noticed: Option<bool>)
    requires Invariant(s) && Enabled(s, step) && Notices(s, noticed) && !step.Frame?
    ensures Notices(Next(s, step), Noticed(s, step, noticed))
  {
  }

  lemma {:induction false} RunNotices(s: System, steps: seq<Step>, noticed: Option<bool>)
    requires Invariant(s) && Runnable(s, steps) && Notices(s, noticed)
    ensures Notices(Run(s, steps), NoticedInRun(s, steps, noticed))
    decreases |steps|
  {
    if steps != [] {
      StepNotices(s, steps[0], noticed);
      NextInvariant(s, steps[0]);
      RunNotices(Next(s, steps[0]), steps[1..], Noticed(s, steps[0], noticed));
    }
  }

  /**
   In every run of a device from the factory on, a rollback rejects an image that the host has confirmed
   if and only if the confirmation came after the last look at the image and the other slot can be rolled
   back to. Confirmed before that look, an image is never rolled back.
   */
  lemma ConfirmedIsRolledBackExactlyWhen(desc: Descriptor, mode: Mode, marker: nat, now: int, steps: seq<Step>)
    requires Runnable(Factory(desc, mode, marker, now), steps)
    requires Enabled(Run(Factory(desc, mode, marker, now), steps), RollBack)
    ensures
      var s := Run(Factory(desc, mode, marker, now), steps);
      var noticed := NoticedInRun(Factory(desc, mode, marker, now), steps, None);
      && WellFormed(s) && noticed.Some?
      && (!PendingVerify(s.engine.flash) && Rejected(Next(s, RollBack), s.engine.flash.running) <==>
            noticed.value && RollbackPossible(s.engine.flash))
  {
    FactoryInvariant(desc, mode, marker, now);
    RunInvariant(Factory(desc, mode, marker, now), steps);
    RunNotices(Factory(desc, mode, marker, now), steps, None);
  }

  /** For instance: a confirmation answered between the look and the rollback. The image is valid for that
      moment, then invalid, and the next boot runs the other one. */
  lemma LateConfirmationIsLost(s: System, i: nat, now: int, powerOn: bool, crashes: seq<bool>, later: int)
    requires Invariant(s) && s.rollingBack && !s.restarting && i < 2
    requires PendingVerify(s.engine.flash) && RollbackPossible(s.engine.flash)
    ensures
      var confirm := Frame(i, Request(ConfirmFrame, []), now);
      var confirmed := Next(s, confirm);
      var rejected := Next(confirmed, RollBack);
      var r := s.engine.flash.running;
      && Handle(ViewOf(s, i), Request(ConfirmFrame, []), now).reply == Ok(0)
      && RunningSlot(confirmed.engine.flash).state == Valid
      && Rejected(rejected, r)
      && GivenUp(Next(rejected, Reset(powerOn, crashes, later)), r, Invalid)
  {
    var confirmed := Next(s, Frame(i, Request(ConfirmFrame, []), now));
    NextInvariant(s, Frame(i, Request(ConfirmFrame, []), now));
    NextInvariant(confirmed, RollBack);
    ResetAfterRollback(Next(confirmed, RollBack), s.engine.flash.running, powerOn, crashes, later);
  }
}
