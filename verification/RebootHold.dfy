/**
 How long the output stays held once a console has asked for a reboot. The hold goes up with the
 request; whether it is still up when the device restarts depends on what happens in between.
 */
module RebootHold {
  import opened Bytes
  import opened Options
  import opened FlashModel
  import opened OtaModel
  import opened ServiceModel
  import opened UpdateSystem
  import opened UploadIdle

  /** Whatever defers an action raises the hold first. */
  lemma RequestRaisesHold(v: View, r: Request, now: int)
    requires Handle(v, r, now).view.link.deferred.Some? && v.link.deferred.None?
    ensures Handle(v, r, now).view.link.holding
  {
  }

  // --------------------------------------------------------------------------
  // One step
  // --------------------------------------------------------------------------

  /** The reply to the link's last request was lost while an action waited for it. */
  predicate LosesReply(s: System, step: Step, i: nat)
    requires WellFormed(s) && i < 2
  {
    step.ReplySent? && step.link == i && !step.queued && s.links[i].deferred.Some?
  }

  /** What takes down the hold of a link that is uploading: the end of its own session, unless that
      end is a finish that commits the image. */
  predicate EndsOwnSession(s: System, step: Step, i: nat, fed: Option<int>)
    requires WellFormed(s) && i < 2
  {
    match step
    case Frame(j, r, _) =>
      j == i && (|| r.kind.AbortFrame?
                 || (r.kind.FinishFrame? && ParseDescriptor(s.engine.image).None?)
                 || (r.kind.RevertFrame? && r.payload == []))
    case ExpiryCheck(j, maxIdle, now) => j == i && (fed.None? || now - fed.value >= maxIdle)
    case LinkLost(j) => j == i
    case _ => false
  }

  predicate Releases(s: System, step: Step, i: nat, fed: Option<int>)
    requires WellFormed(s) && i < 2
  {
    || StartsOver(step)
    || (if s.links[i].owner then EndsOwnSession(s, step, i, fed) else LosesReply(s, step, i))
  }

  /** A revert during the own upload always fails: the upload has erased the image to go back to. */
  lemma OwnRevertFails(v: View, payload: Bytes, rival: bool)
    requires Consistent(v, rival) && v.link.owner && payload == []
    ensures HandleRevert(v, payload).reply.Error? && !HandleRevert(v, payload).view.link.holding
  {
  }

  lemma OwnFrameHold(v: View, r: Request, now: int, rival: bool)
    requires Consistent(v, rival) && v.link.holding
    ensures
      var ends := || r.kind.AbortFrame?
                  || (r.kind.FinishFrame? && ParseDescriptor(v.engine.image).None?)
                  || (r.kind.RevertFrame? && r.payload == []);
      Handle(v, r, now).view.link.holding <==> !(v.link.owner && ends)
  {
    if r.kind.RevertFrame? && v.link.owner && r.payload == [] {
      OwnRevertFails(v, r.payload, rival);
    }
  }

  lemma LinkStepHold(s: System, step: Step, i: nat, fed: Option<int>)
    requires Invariant(s) && Enabled(s, step) && i < 2 && s.links[i].holding && Stamped(s, i, fed)
    requires step.Frame? || step.ReplySent? || step.ExpiryCheck? || step.LinkLost?
    ensures Next(s, step).links[i].holding <==> !Releases(s, step, i, fed)
  {
    if step.Frame? && step.link == i {
      OwnFrameHold(ViewOf(s, i), step.request, step.now, s.links[1 - i].owner);
    }
  }

  lemma DeviceStepHold(s: System, step: Step, i: nat, fed: Option<int>)
    requires Invariant(s) && Enabled(s, step) && i < 2 && s.links[i].holding && Stamped(s, i, fed)
    requires step.HealthCheck? || step.RollBack? || step.Reject? || StartsOver(step)
    ensures Next(s, step).links[i].holding <==> !Releases(s, step, i, fed)
  {
  }

  /** A hold that is up falls with a step exactly when the step is the restart, or ends the link's
      own session other than by a committed image, or, without a session, loses the link's reply. */
  lemma ReleasedExactlyBy(s: System, step: Step, i: nat, fed: Option<int>)
    requires Invariant(s) && Enabled(s, step) && i < 2 && s.links[i].holding && Stamped(s, i, fed)
    ensures Next(s, step).links[i].holding <==> !Releases(s, step, i, fed)
  {
    if step.Frame? || step.ReplySent? || step.ExpiryCheck? || step.LinkLost? {
      LinkStepHold(s, step, i, fed);
    } else {
      DeviceStepHold(s, step, i, fed);
    }
  }

  // --------------------------------------------------------------------------
  // Whole runs
  // --------------------------------------------------------------------------

  /** The link holds after every step of the run. */
  predicate HeldThroughout(s: System, steps: seq<Step>, i: nat)
    requires Runnable(s, steps) && i < 2
    decreases |steps|
  {
    s.links[i].holding && (steps == [] || HeldThroughout(Next(s, steps[0]), steps[1..], i))
  }

  /** No step of the run releases the hold when it is taken. */
  predicate NoneReleases(s: System, steps: seq<Step>, i: nat, fed: Option<int>)
    requires Runnable(s, steps) && i < 2
    decreases |steps|
  {
    steps == [] ||
    (!Releases(s, steps[0], i, fed) && NoneReleases(Next(s, steps[0]), steps[1..], i, FedBy(s, steps[0], i, fed)))
  }

  lemma {:induction false} HeldWhileNoneReleases(s: System, steps: seq<Step>, i: nat, fed: Option<int>)
    requires Invariant(s) && Runnable(s, steps) && i < 2 && s.links[i].holding && Stamped(s, i, fed)
    ensures HeldThroughout(s, steps, i) <==> NoneReleases(s, steps, i, fed)
    decreases |steps|
  {
    if steps != [] {
      ReleasedExactlyBy(s, steps[0], i, fed);
      NextInvariant(s, steps[0]);
      StepStamps(s, steps[0], i, fed);
      if !Releases(s, steps[0], i, fed) {
        HeldWhileNoneReleases(Next(s, steps[0]), steps[1..], i, FedBy(s, steps[0], i, fed));
      }
    }
  }

  /** In every run from the factory on, a hold stays up exactly as long as nothing releases it. */
  lemma HeldExactlyWhileNoneReleases(desc: Descriptor, mode: Mode, marker: nat, now: int,
                                     before: seq<Step>, steps: seq<Step>, i: nat)
    requires Runnable(Factory(desc, mode, marker, now), before) && i < 2
    requires Runnable(Run(Factory(desc, mode, marker, now), before), steps)
    requires Run(Factory(desc, mode, marker, now), before).links[i].holding
    ensures
      var s := Run(Factory(desc, mode, marker, now), before);
      HeldThroughout(s, steps, i) <==>
        NoneReleases(s, steps, i, Fed(Factory(desc, mode, marker, now), before, i, None))
  {
    StampIsLatestFeed(desc, mode, marker, now, before, i);
    HeldWhileNoneReleases(Run(Factory(desc, mode, marker, now), before), steps, i,
                          Fed(Factory(desc, mode, marker, now), before, i, None));
  }

  /** The link starts an upload with this step. */
  predicate Begins(s: System, step: Step, i: nat)
    requires WellFormed(s) && Enabled(s, step) && i < 2
  {
    step.Frame? && step.link == i && step.request.kind.BeginFrame?
    && Handle(ViewOf(s, i), step.request, step.now).reply.Ok?
  }

  /** Steps that neither restart the device, nor lose the link's reply, nor start an upload of the link. */
  predicate NothingInTheWay(s: System, steps: seq<Step>, i: nat)
    requires Runnable(s, steps) && i < 2
    decreases |steps|
  {
    steps == [] ||
    (&& !StartsOver(steps[0]) && !LosesReply(s, steps[0], i) && !Begins(s, steps[0], i)
     && NothingInTheWay(Next(s, steps[0]), steps[1..], i))
  }

  /** A link that owns no session gets one from an accepted begin, and from nothing else. */
  lemma FrameOwner(v: View, r: Request, now: int)
    requires !v.link.owner
    ensures
      var handled := Handle(v, r, now);
      handled.view.link.owner <==> r.kind.BeginFrame? && handled.reply.Ok?
  {
  }

  lemma OwnerOnlyByBegin(s: System, step: Step, i: nat)
    requires Invariant(s) && Enabled(s, step) && i < 2 && !s.links[i].owner
    ensures Next(s, step).links[i].owner <==> Begins(s, step, i)
  {
    if step.Frame? && step.link == i {
      FrameOwner(ViewOf(s, step.link), step.request, step.now);
    }
  }

  /** A link without a session that asked for a reboot keeps the output held until the device restarts,
      in every run in which its reply gets out and no upload of its own is accepted meanwhile,
      whatever the other link, the expiry and the health checks do. */
  lemma {:induction false} HeldUntilRestart(s: System, steps: seq<Step>, i: nat)
    requires Invariant(s) && Runnable(s, steps) && i < 2
    requires s.links[i].holding && !s.links[i].owner
    requires NothingInTheWay(s, steps, i)
    ensures HeldThroughout(s, steps, i)
    ensures WellFormed(Run(s, steps)) && Run(s, steps).links[i].holding && Run(s, steps).holds > 0
    decreases |steps|
  {
    if steps != [] {
      ReleasedExactlyBy(s, steps[0], i, None);
      OwnerOnlyByBegin(s, steps[0], i);
      NextInvariant(s, steps[0]);
      HeldUntilRestart(Next(s, steps[0]), steps[1..], i);
    }
  }

  /** Each condition is needed. A link that asks for a restart, then starts an upload while the reply
      is on its way, and aborts it, has no hold left although the reboot is coming. */
  lemma BeginThenAbortReleases(v: View, size: Bytes, now: int)
    requires Consistent(v, false) && !v.link.owner && !v.link.holding
    requires |size| == 4 && !PendingVerify(v.engine.flash)
    ensures
      var asked := AfterReply(Handle(v, Request(RestartFrame, []), now).view, true);
      var began := Handle(asked, Request(BeginFrame, size), now);
      var aborted := Handle(AfterReply(began.view, true), Request(AbortFrame, []), now).view;
      && asked.link.holding && began.reply.Ok? && began.view.link.holding
      && !aborted.link.holding && aborted.holds == v.holds
  {
  }

  /** Nor is it enough to begin with a session: aborting it releases the hold. */
  lemma AbortReleasesRebootHold(v: View, rival: bool, now: int)
    requires Consistent(v, rival) && v.link.owner
    ensures
      var asked := Handle(v, Request(RestartFrame, []), now).view;
      var replied := AfterReply(asked, true);
      var aborted := Handle(replied, Request(AbortFrame, []), now).view;
      && asked.link.deferred == Some(Reboot) && asked.link.holding
      && replied.link.holding && replied.link.owner
      && !aborted.link.holding && aborted.holds == v.holds - 1
  {
  }
}
