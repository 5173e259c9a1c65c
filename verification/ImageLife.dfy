/**
 What becomes of the image in either slot: a table of the state of both slots, and of the slot that
 runs and boots next, by what the host sends and is answered, by rollbacks and by resets.
 */
module ImageLife {
  import opened Bytes
  import opened Options
  import opened FlashModel
  import opened OtaModel
  import opened ServiceModel
  import opened UpdateSystem
  import H = HealthModel

  // --------------------------------------------------------------------------
  // The descriptor of an upload
  // --------------------------------------------------------------------------

  /** The first 288 bytes of an image, with its first byte and the magic word of its descriptor right. */
  predicate Begins(image: Bytes) {
    |image| >= 288 && image[0] == 0xE9 && image[32..36] == [0x32, 0x54, 0xCD, 0xAB]
  }

  lemma DescriptorExactlyWhen(image: Bytes)
    ensures ParseDescriptor(image) == if Begins(image) then Some(image[32..288]) else None
  {
    if |image| >= 288 {
      assert image[32..288][..4] == image[32..36];
      U32RoundTrip(DESC_MAGIC);
      if GetU32(image[32..36]) == DESC_MAGIC {
        U32Canonical(image[32..36]);
      }
    }
  }

  lemma DescriptorStays(image: Bytes, more: Bytes)
    requires Begins(image)
    ensures Begins(image + more) && (image + more)[32..288] == image[32..288]
  {
    assert (image + more)[32..36] == image[32..36];
  }

  // --------------------------------------------------------------------------
  // What the host has brought about
  // --------------------------------------------------------------------------

  /** A request of this kind is answered OK with this step. */
  predicate Granted(s: System, step: Step, kind: Kind)
    requires WellFormed(s) && Enabled(s, step)
  {
    step.Frame? && step.request.kind == kind && Handle(ViewOf(s, step.link), step.request, step.now).reply.Ok?
  }

  /** This step brings the last byte of the descriptor. */
  predicate BringsDescriptor(s: System, step: Step)
    requires WellFormed(s) && Enabled(s, step)
  {
    Granted(s, step, DataFrame) && |step.request.payload| > 4
    && !Begins(s.engine.image) && Begins(s.engine.image + step.request.payload[4..])
  }

  /** The image of a slot verifies, and no entry rejects it. */
  predicate CanBeRolledBackTo(slot: Slot) {
    slot.hasImage && !slot.partial && slot.state !in {Undefined, Invalid, Aborted}
  }

  /** The running image is rejected: by a rollback, or as unconfirmed by a fatal failure at start. */
  predicate Rejects(s: System, step: Step)
    requires WellFormed(s)
  {
    var f := s.engine.flash;
    (step.RollBack? || (step.Reject? && f.slots[f.running].state == Pending)) && CanBeRolledBackTo(f.slots[1 - f.running])
  }

  // --------------------------------------------------------------------------
  // What a reset brings about
  // --------------------------------------------------------------------------

  /** The slot a reset runs: the one chosen, unless its image was left unconfirmed. */
  function RunsNext(f: Flash): nat {
    if f.slots[f.boot].state == Pending then 1 - f.boot else f.boot
  }

  /** The prologue of this boot hands the device over to the other slot: this image keeps crashing, is
      confirmed, none was handed over since power-on, and the other one is complete and was not rejected. */
  predicate HandsOver(s: System, step: Step) {
    var f := s.engine.flash;
    var n := RunsNext(f);
    && step.Reset? && H.CrashLooping(step.crashes, 3)
    && (step.powerOn || s.marker !in {H.HANDOVER_REQUESTED, H.HANDOVER_DONE})
    && f.slots[n].state != New
    && f.slots[1 - n].hasImage && !f.slots[1 - n].partial && f.slots[1 - n].state !in {Pending, Invalid, Aborted}
  }

  /** The state of the image in slot i after a reset. */
  function StateAfterReset(s: System, step: Step, i: nat): ImageState
    requires i < 2 && StartsOver(step)
  {
    var f := s.engine.flash;
    var (n, state) := (RunsNext(f), f.slots[i].state);
    if state == Pending then Aborted
    else if i != n then (if HandsOver(s, step) then New else state)
    else if state != New then state
    else if step.Reset? && !step.powerOn && s.marker == H.HANDOVER_REQUESTED then Valid
    else Pending
  }

  // --------------------------------------------------------------------------
  // The table
  // --------------------------------------------------------------------------

  /** What slot i holds after a step. */
  function SlotAfter(s: System, step: Step, i: nat): Slot
    requires WellFormed(s) && Enabled(s, step) && i < 2
  {
    var slot := s.engine.flash.slots[i];
    if StartsOver(step) then slot.(state := StateAfterReset(s, step, i))
    else if i == s.engine.flash.running then
      if Granted(s, step, ConfirmFrame) then slot.(state := Valid)
      else if Rejects(s, step) then slot.(state := Invalid)
      else slot
    else if Granted(s, step, BeginFrame) then Slot(false, false, [], Undefined)
    else if BringsDescriptor(s, step) then
      Slot(true, true, (s.engine.image + step.request.payload[4..])[32..288], Undefined)
    else if Granted(s, step, FinishFrame) && Begins(s.engine.image) then Slot(true, false, s.engine.image[32..288], New)
    else if Granted(s, step, RevertFrame) then slot.(state := New)
    else slot
  }

  function RunningAfter(s: System, step: Step): nat {
    if StartsOver(step) then RunsNext(s.engine.flash) else s.engine.flash.running
  }

  function BootAfter(s: System, step: Step): nat
    requires WellFormed(s) && Enabled(s, step)
  {
    var f := s.engine.flash;
    if StartsOver(step) then (if HandsOver(s, step) then 1 - RunsNext(f) else RunsNext(f))
    else if Granted(s, step, FinishFrame) || Granted(s, step, RevertFrame) || Rejects(s, step) then 1 - f.running
    else if Granted(s, step, BeginFrame) then f.running
    else f.boot
  }

  /** During an upload the slot that is not running holds nothing until the descriptor has arrived, and from
      then on the descriptor of an image that is not complete. */
  predicate Described(e: Engine) {
    e.active ==>
      && (e.descSeen <==> Begins(e.image))
      && OtherSlot(e.flash) ==
           if Begins(e.image) then Slot(true, true, e.image[32..288], Undefined) else Slot(false, false, [], Undefined)
  }

  predicate AsTabled(s: System, step: Step, f: Flash)
    requires WellFormed(s) && Enabled(s, step)
  {
    f == FlashState([SlotAfter(s, step, 0), SlotAfter(s, step, 1)], RunningAfter(s, step), BootAfter(s, step))
  }

  /** What the prologue finds once the loader is done. */
  lemma LoaderLeaves(f: Flash)
    requires Bootable(f)
    ensures
      var (g, n) := (Boot(f), RunsNext(f));
      && n < 2 && g.running == n && g.boot == n
      && g.slots[n] == f.slots[n].(state := if f.slots[n].state == New then Pending else f.slots[n].state)
      && g.slots[1 - n] == f.slots[1 - n].(state := if f.slots[1 - n].state == Pending then Aborted else f.slots[1 - n].state)
      && f.slots[n].state != Pending
  {
  }

  /** The flash after a reset, by the table. */
  function AfterReset(s: System, step: Step): FlashState
    requires WellFormed(s) && StartsOver(step)
  {
    var f := s.engine.flash;
    FlashState([f.slots[0].(state := StateAfterReset(s, step, 0)), f.slots[1].(state := StateAfterReset(s, step, 1))],
               RunsNext(f), if HandsOver(s, step) then 1 - RunsNext(f) else RunsNext(f))
  }

  lemma PrologueAsTabled(s: System, powerOn: bool, crashes: seq<bool>, now: int)
    requires Invariant(s)
    ensures
      var step := Reset(powerOn, crashes, now);
      var b := H.BootDevice(s.engine.flash, s.marker, powerOn, crashes);
      b.flash == AfterReset(s, step) && b.handedOver == HandsOver(s, step)
  {
    LoaderLeaves(s.engine.flash);
  }

  lemma ResetAsTabled(s: System, step: Step)
    requires Invariant(s) && StartsOver(step)
    ensures AsTabled(s, step, Next(s, step).engine.flash) && !Next(s, step).engine.active
  {
    if step.Reset? {
      PrologueAsTabled(s, step.powerOn, step.crashes, step.now);
    } else {
      LoaderLeaves(s.engine.flash);
    }
    assert AsTabled(s, step, AfterReset(s, step));
  }

  lemma BeginAsTabled(s: System, step: Step)
    requires Invariant(s) && Enabled(s, step) && Described(s.engine) && step.Frame? && step.request.kind.BeginFrame?
    ensures AsTabled(s, step, Next(s, step).engine.flash) && Described(Next(s, step).engine)
  {
  }

  lemma WriteDescribes(e: Engine, data: Bytes)
    requires e.active && Described(e)
    ensures Described(Write(e, data)) && Write(e, data).flash.slots[e.flash.running] == e.flash.slots[e.flash.running]
    ensures Write(e, data).flash.running == e.flash.running && Write(e, data).flash.boot == e.flash.boot
  {
    DescriptorExactlyWhen(e.image + data);
    if Begins(e.image) {
      DescriptorStays(e.image, data);
    }
  }

  lemma ChunkLeaves(v: View, payload: Bytes, now: int)
    requires v.link.owner ==> v.engine.active
    ensures
      var h := HandleData(v, payload, now);
      if h.reply.Ok? then v.engine.active && |payload| > 4 && h.view.engine == Write(v.engine, payload[4..])
      else h.view == v
  {
  }

  lemma ChunkAsTabled(s: System, step: Step)
    requires Invariant(s) && Enabled(s, step) && Described(s.engine) && step.Frame? && step.request.kind.DataFrame?
    ensures AsTabled(s, step, Next(s, step).engine.flash) && Described(Next(s, step).engine)
  {
    var payload := step.request.payload;
    ChunkLeaves(ViewOf(s, step.link), payload, step.now);
    if Granted(s, step, DataFrame) {
      WriteDescribes(s.engine, payload[4..]);
      if Begins(s.engine.image) {
        DescriptorStays(s.engine.image, payload[4..]);
      }
    }
  }

  lemma FinishAsTabled(s: System, step: Step)
    requires Invariant(s) && Enabled(s, step) && Described(s.engine) && step.Frame? && step.request.kind.FinishFrame?
    ensures AsTabled(s, step, Next(s, step).engine.flash) && Described(Next(s, step).engine)
  {
    DescriptorExactlyWhen(s.engine.image);
  }

  lemma RevertAsTabled(s: System, step: Step)
    requires Invariant(s) && Enabled(s, step) && Described(s.engine) && step.Frame? && step.request.kind.RevertFrame?
    ensures AsTabled(s, step, Next(s, step).engine.flash) && Described(Next(s, step).engine)
  {
  }

  lemma RequestAsTabled(s: System, step: Step)
    requires Invariant(s) && Enabled(s, step) && Described(s.engine) && step.Frame?
    requires step.request.kind !in {BeginFrame, DataFrame, FinishFrame, RevertFrame}
    ensures AsTabled(s, step, Next(s, step).engine.flash) && Described(Next(s, step).engine)
  {
  }

  lemma LinkStepAsTabled(s: System, step: Step)
    requires Invariant(s) && Enabled(s, step) && Described(s.engine)
    requires step.ReplySent? || step.ExpiryCheck? || step.LinkLost?
    ensures AsTabled(s, step, Next(s, step).engine.flash) && Described(Next(s, step).engine)
  {
  }

  lemma HealthCheckAsTabled(s: System, step: Step)
    requires Invariant(s) && Enabled(s, step) && Described(s.engine) && step.HealthCheck?
    ensures AsTabled(s, step, Next(s, step).engine.flash) && Described(Next(s, step).engine)
  {
    assert Next(s, step).engine == s.engine;
  }

  lemma RejectionAsTabled(s: System, step: Step)
    requires Invariant(s) && Enabled(s, step) && Described(s.engine) && (step.RollBack? || step.Reject?)
    ensures AsTabled(s, step, Next(s, step).engine.flash) && Described(Next(s, step).engine)
  {
  }

  lemma StepAsTabled(s: System, step: Step)
    requires Invariant(s) && Enabled(s, step) && Described(s.engine)
    ensures AsTabled(s, step, Next(s, step).engine.flash) && Described(Next(s, step).engine)
  {
    match step
    case Frame(_, r, _) =>
      match r.kind {
        case BeginFrame => BeginAsTabled(s, step);
        case DataFrame => ChunkAsTabled(s, step);
        case FinishFrame => FinishAsTabled(s, step);
        case RevertFrame => RevertAsTabled(s, step);
        case _ => RequestAsTabled(s, step);
      }
    case ReplySent(_, _) => LinkStepAsTabled(s, step);
    case ExpiryCheck(_, _, _) => LinkStepAsTabled(s, step);
    case LinkLost(_) => LinkStepAsTabled(s, step);
    case Reset(_, _, _) => ResetAsTabled(s, step);
    case CutBoot => ResetAsTabled(s, step);
    case HealthCheck(_) => HealthCheckAsTabled(s, step);
    case RollBack => RejectionAsTabled(s, step);
    case Reject => RejectionAsTabled(s, step);
  }

  lemma {:induction false} RunDescribes(s: System, steps: seq<Step>)
    requires Invariant(s) && Runnable(s, steps) && Described(s.engine)
    ensures Described(Run(s, steps).engine)
    decreases |steps|
  {
    if steps != [] {
      StepAsTabled(s, steps[0]);
      NextInvariant(s, steps[0]);
      RunDescribes(Next(s, steps[0]), steps[1..]);
    }
  }

  /** The word that outlives a reset: a handover asked for, one that happened since power-on, or nothing. */
  function MarkerAfter(s: System, step: Step): nat {
    if !step.Reset? then s.marker
    else if HandsOver(s, step) then H.HANDOVER_REQUESTED
    else if !step.powerOn && s.marker in {H.HANDOVER_REQUESTED, H.HANDOVER_DONE} then H.HANDOVER_DONE
    else 0
  }

  lemma MarkerAsTabled(s: System, step: Step)
    requires Invariant(s) && Enabled(s, step)
    ensures Next(s, step).marker == MarkerAfter(s, step)
    ensures Next(s, step).restarting <==>
              if StartsOver(step) then step.CutBoot? || HandsOver(s, step) else s.restarting || Rejects(s, step)
  {
    if step.Reset? {
      PrologueAsTabled(s, step.powerOn, step.crashes, step.now);
    }
  }

  /** In every run from the factory on, each step changes the slots, the slot that runs, the one that boots next
      and the handover marker exactly as the table says. */
  lemma FlashFollowsTable(desc: Descriptor, mode: Mode, marker: nat, now: int, steps: seq<Step>, step: Step)
    requires Runnable(Factory(desc, mode, marker, now), steps)
    requires Enabled(Run(Factory(desc, mode, marker, now), steps), step)
    ensures
      var s := Run(Factory(desc, mode, marker, now), steps);
      WellFormed(s) && AsTabled(s, step, Next(s, step).engine.flash) && Next(s, step).marker == MarkerAfter(s, step)
  {
    var factory := Factory(desc, mode, marker, now);
    FactoryInvariant(desc, mode, marker, now);
    RunInvariant(factory, steps);
    RunDescribes(factory, steps);
    StepAsTabled(Run(factory, steps), step);
    MarkerAsTabled(Run(factory, steps), step);
  }

  /** A brand-new board runs one confirmed image, holds nothing else, and knows of no handover. */
  lemma FactoryHolds(desc: Descriptor, mode: Mode, marker: nat, now: int)
    ensures
      var s := Factory(desc, mode, marker, now);
      && s.engine.flash == FlashState([Slot(true, false, desc, Valid), Slot(false, false, [], Undefined)], 0, 0)
      && s.marker == 0 && !s.restarting && s.mode == mode
  {
    var f: FlashState := Format(desc);
    assert f.slots == [Slot(true, false, desc, Valid), Slot(false, false, [], Undefined)];
  }

  /** So the slot being written cannot be chosen to boot: it holds nothing, then something incomplete. */
  lemma UploadCannotBeChosen(e: Engine)
    requires e.active && Described(e)
    ensures SetBootError(e.flash, Other(e.flash)) == Some(if Begins(e.image) then ValidateFailed else NotFound)
  {
  }

  // --------------------------------------------------------------------------
  // Confirmed only by the host or a handover
  // --------------------------------------------------------------------------

  /** This step makes the image of slot i valid: the host confirms it while it runs, or it is untried and a boot
      runs it that a handover asked for. */
  predicate Vouches(s: System, step: Step, i: nat)
    requires WellFormed(s) && Enabled(s, step) && i < 2
  {
    var f := s.engine.flash;
    || (Granted(s, step, ConfirmFrame) && i == f.running)
    || (step.Reset? && !step.powerOn && s.marker == H.HANDOVER_REQUESTED && f.slots[i].state == New && f.boot == i)
  }

  lemma ValidInTable(s: System, step: Step, i: nat)
    requires Invariant(s) && Enabled(s, step) && i < 2
    requires s.engine.flash.slots[i].state != Valid
    ensures SlotAfter(s, step, i).state == Valid <==> Vouches(s, step, i)
  {
  }

  /** An image that was not valid becomes so exactly by a step that vouches for it. */
  lemma BecomesValidExactlyWhen(s: System, step: Step, i: nat)
    requires Invariant(s) && Enabled(s, step) && Described(s.engine) && i < 2
    requires s.engine.flash.slots[i].state != Valid
    ensures Next(s, step).engine.flash.slots[i].state == Valid <==> Vouches(s, step, i)
  {
    StepAsTabled(s, step);
    ValidInTable(s, step, i);
  }
}
