/** What an upload leaves in the flash is what the host was told had arrived. */
module UploadIntegrity {
  import opened Bytes
  import opened Options
  import opened FlashModel
  import opened OtaModel
  import opened ServiceModel
  import opened UpdateSystem
  import opened UploadIdle

  /** A data chunk is taken exactly when this link owns the session and the chunk continues
      the image; the reply then carries the running total. Everything else (a repeated, an
      out-of-order or an empty chunk, or one from the other link) leaves the engine alone. */
  lemma ChunkTakenExactlyWhenNext(v: View, payload: Bytes, now: int, rival: bool)
    requires Consistent(v, rival)
    ensures
      var h := HandleData(v, payload, now);
      var next := v.link.owner && |payload| > 4 && GetU32(payload[..4]) == |v.engine.image|;
      && (h.reply.Ok? <==> next)
      && (next ==> h.view.engine.image == v.engine.image + payload[4..])
      && (next ==> h.reply.value == (|v.engine.image| + |payload| - 4) % 0x1_0000_0000)
      && (!next ==> h.reply.Error? && h.view == v)
  {
  }

  /** The bytes the host has been told were received, given what was received before. */
  function Account(s: System, step: Step, received: Bytes): Bytes
    requires WellFormed(s) && Enabled(s, step)
  {
    if !step.Frame? then received
    else
      var reply := Handle(ViewOf(s, step.link), step.request, step.now).reply;
      if !reply.Ok? then received
      else if step.request.kind.BeginFrame? then []
      else if step.request.kind.DataFrame? && |step.request.payload| > 4 then received + step.request.payload[4..]
      else received
  }

  function Received(s: System, steps: seq<Step>, received: Bytes): Bytes
    requires Runnable(s, steps)
    decreases |steps|
  {
    if steps == [] then received
    else Received(Next(s, steps[0]), steps[1..], Account(s, steps[0], received))
  }

  predicate Tracks(s: System, received: Bytes) {
    s.engine.active ==> s.engine.image == received
  }

  lemma FrameTracks(v: View, r: Request, now: int, rival: bool, received: Bytes)
    requires Consistent(v, rival)
    requires v.engine.active ==> v.engine.image == received
    ensures
      var h := Handle(v, r, now);
      var after := if h.reply.Ok? && r.kind.BeginFrame? then []
                   else if h.reply.Ok? && r.kind.DataFrame? && |r.payload| > 4 then received + r.payload[4..]
                   else received;
      h.view.engine.active ==> h.view.engine.image == after
  {
    match r.kind
    case BeginFrame =>
    case DataFrame => ChunkTakenExactlyWhenNext(v, r.payload, now, rival);
    case RevertFrame =>
    case _ =>
  }

  lemma LinkStepTracks(s: System, step: Step, received: Bytes)
    requires Invariant(s) && Enabled(s, step) && Tracks(s, received)
    requires step.ReplySent? || step.ExpiryCheck? || step.LinkLost?
    ensures Tracks(Next(s, step), received)
  {
  }

  lemma DeviceStepTracks(s: System, step: Step, received: Bytes)
    requires Invariant(s) && Enabled(s, step) && Tracks(s, received)
    requires step.HealthCheck? || step.RollBack? || step.Reject? || StartsOver(step)
    ensures Tracks(Next(s, step), received)
  {
  }

  lemma StepTracks(s: System, step: Step, received: Bytes)
    requires Invariant(s) && Enabled(s, step) && Tracks(s, received)
    ensures Tracks(Next(s, step), Account(s, step, received))
  {
    match step
    case Frame(i, r, now) => FrameTracks(ViewOf(s, i), r, now, s.links[1 - i].owner, received);
    case ReplySent(_, _) => LinkStepTracks(s, step, received);
    case ExpiryCheck(_, _, _) => LinkStepTracks(s, step, received);
    case LinkLost(_) => LinkStepTracks(s, step, received);
    case _ => DeviceStepTracks(s, step, received);
  }

  /** In every run, the image of a session in progress is the concatenation, in order, of the
      chunks acknowledged since that session's own OTA_BEGIN. */
  lemma {:induction false} ImageIsWhatWasAcknowledged(s: System, steps: seq<Step>, received: Bytes)
    requires Invariant(s) && Runnable(s, steps) && Tracks(s, received)
    ensures Tracks(Run(s, steps), Received(s, steps, received))
    decreases |steps|
  {
    if steps != [] {
      StepTracks(s, steps[0], received);
      NextInvariant(s, steps[0]);
      ImageIsWhatWasAcknowledged(Next(s, steps[0]), steps[1..], Account(s, steps[0], received));
    }
  }

  /** What OTA_FINISH does to the flash, given the bytes received. */
  predicate Committed(v: View, payload: Bytes, received: Bytes) {
    var h := Handle(v, Request(FinishFrame, payload), 0);
    var f := h.view.engine.flash;
    if h.reply.Ok?
    then v.link.owner && ParseDescriptor(received).Some?
         && OtherSlot(f) == Slot(true, false, ParseDescriptor(received).value, New)
         && f.boot == Other(f) && RunningSlot(f) == RunningSlot(v.engine.flash)
         && !h.view.engine.active && h.view.link.holding
    else f == v.engine.flash && (v.link.owner ==> ParseDescriptor(received).None? && !h.view.link.holding)
  }

  lemma FinishCommits(v: View, payload: Bytes, rival: bool, received: Bytes)
    requires Consistent(v, rival)
    requires v.engine.active ==> v.engine.image == received
    ensures Committed(v, payload, received)
  {
  }

  /**
   From the factory on: when OTA_FINISH is answered OK after any run, the slot that boots next
   holds a complete, untried image with the descriptor of exactly the acknowledged bytes.
   When the bytes are no image, it is refused and the flash is as it was.
   */
  lemma FinishCommitsWhatWasAcknowledged(desc: Descriptor, mode: Mode, marker: nat, now: int,
                                         steps: seq<Step>, i: nat, payload: Bytes)
    requires Runnable(Factory(desc, mode, marker, now), steps)
    requires i < 2
    ensures WellFormed(Run(Factory(desc, mode, marker, now), steps))
    ensures Committed(ViewOf(Run(Factory(desc, mode, marker, now), steps), i), payload,
                      Received(Factory(desc, mode, marker, now), steps, []))
  {
    var factory := Factory(desc, mode, marker, now);
    FactoryInvariant(desc, mode, marker, now);
    FinishAfterRun(factory, steps, i, payload);
  }

  lemma FinishAfterRun(s: System, steps: seq<Step>, i: nat, payload: Bytes)
    requires Invariant(s) && !s.engine.active && Runnable(s, steps) && i < 2
    ensures WellFormed(Run(s, steps))
    ensures Committed(ViewOf(Run(s, steps), i), payload, Received(s, steps, []))
  {
    RunInvariant(s, steps);
    ImageIsWhatWasAcknowledged(s, steps, []);
    var t := Run(s, steps);
    FinishCommits(ViewOf(t, i), payload, t.links[1 - i].owner, Received(s, steps, []));
  }

  /** The slot being written never verifies before OTA_FINISH: an upload cut short at any
      point cannot be booted, reverted to or rolled back to. */
  lemma HalfAnUploadNeverBoots(s: System, powerOn: bool, crashes: seq<bool>, now: int)
    requires Invariant(s) && s.engine.active
    ensures !Complete(OtherSlot(s.engine.flash))
    ensures SetBootError(s.engine.flash, Other(s.engine.flash)).Some?
    ensures !RollbackPossible(s.engine.flash)
    ensures Restarted(s, s.engine.flash, powerOn, crashes, now).engine.flash.running == s.engine.flash.running
  {
  }

  // --------------------------------------------------------------------------
  // Who can end an upload
  // --------------------------------------------------------------------------

  /** Steps that may end the upload of link i, last fed at this time: its own requests, its loss, an expiry
      check after it has been idle for long enough, and a reset. */
  predicate MayEnd(s: System, step: Step, i: nat, fed: Option<int>)
    requires WellFormed(s) && i < 2
  {
    match step
    case Frame(j, r, _) =>
      j == i && (r.kind.BeginFrame? || r.kind.FinishFrame? || r.kind.AbortFrame? || r.kind.RevertFrame?)
    case LinkLost(j) => j == i
    case ExpiryCheck(j, maxIdle, now) => j == i && (fed.None? || now - fed.value >= maxIdle)
    case Reset(_, _, _) => true
    case CutBoot => true
    case _ => false
  }

  predicate Grown(before: Bytes, after: Bytes) {
    before <= after
  }

  lemma OwnFrameKeepsUpload(v: View, r: Request, now: int, rival: bool)
    requires Consistent(v, rival) && v.link.owner
    requires !r.kind.BeginFrame? && !r.kind.FinishFrame? && !r.kind.AbortFrame? && !r.kind.RevertFrame?
    ensures
      var w := Handle(v, r, now).view;
      w.engine.active && w.link.owner && Grown(v.engine.image, w.engine.image)
  {
    if r.kind.DataFrame? {
      ChunkTakenExactlyWhenNext(v, r.payload, now, rival);
    }
  }

  /** Nothing else ends it: not the other link, not the health check, not a reply that was lost. */
  lemma UploadKeepsGoing(s: System, step: Step, i: nat, fed: Option<int>)
    requires Invariant(s) && Enabled(s, step) && i < 2 && s.links[i].owner && Stamped(s, i, fed)
    requires !MayEnd(s, step, i, fed)
    ensures
      var t := Next(s, step);
      t.links[i].owner && t.engine.active && Grown(s.engine.image, t.engine.image)
  {
    match step
    case Frame(j, r, now) =>
      if j == i {
        OwnFrameKeepsUpload(ViewOf(s, i), r, now, s.links[1 - i].owner);
      } else {
        HandleKeepsConsistent(ViewOf(s, j), r, now, true);
      }
    case _ =>
  }

  /** No step of a run may end the upload of link i when it is taken. */
  predicate NoneEnds(s: System, steps: seq<Step>, i: nat, fed: Option<int>)
    requires Runnable(s, steps) && i < 2
    decreases |steps|
  {
    steps == [] ||
    (!MayEnd(s, steps[0], i, fed) && NoneEnds(Next(s, steps[0]), steps[1..], i, FedBy(s, steps[0], i, fed)))
  }

  lemma {:induction false} UploadGoesOn(s: System, steps: seq<Step>, i: nat, fed: Option<int>)
    requires Invariant(s) && Runnable(s, steps) && i < 2 && s.links[i].owner && Stamped(s, i, fed)
    requires NoneEnds(s, steps, i, fed)
    ensures
      var t := Run(s, steps);
      WellFormed(t) && t.links[i].owner && t.engine.active && Grown(s.engine.image, t.engine.image)
    decreases |steps|
  {
    if steps != [] {
      UploadKeepsGoing(s, steps[0], i, fed);
      NextInvariant(s, steps[0]);
      StepStamps(s, steps[0], i, fed);
      UploadGoesOn(Next(s, steps[0]), steps[1..], i, FedBy(s, steps[0], i, fed));
    }
  }

  /** However long it takes: in every run from the factory on, an upload survives everything but its own link's
      end of it, a reset, and an expiry check with no begin or chunk answered OK for the idle time. */
  lemma UploadSurvives(desc: Descriptor, mode: Mode, marker: nat, now: int, before: seq<Step>, steps: seq<Step>, i: nat)
    requires Runnable(Factory(desc, mode, marker, now), before) && i < 2
    requires Runnable(Run(Factory(desc, mode, marker, now), before), steps)
    requires Run(Factory(desc, mode, marker, now), before).links[i].owner
    requires NoneEnds(Run(Factory(desc, mode, marker, now), before), steps, i,
                      Fed(Factory(desc, mode, marker, now), before, i, None))
    ensures
      var s := Run(Factory(desc, mode, marker, now), before);
      var t := Run(s, steps);
      WellFormed(t) && t.links[i].owner && t.engine.active && Grown(s.engine.image, t.engine.image)
  {
    StampIsLatestFeed(desc, mode, marker, now, before, i);
    UploadGoesOn(Run(Factory(desc, mode, marker, now), before), steps, i,
                 Fed(Factory(desc, mode, marker, now), before, i, None));
  }
}
