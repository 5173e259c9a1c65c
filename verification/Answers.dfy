/** What each request is answered, and what it leaves behind, told by who uploads and what the slots hold. */
module Answers {
  import opened Bytes
  import opened Options
  import opened FlashModel
  import opened OtaModel
  import opened ServiceModel
  import opened UpdateSystem
  import opened ImageLife

  // --------------------------------------------------------------------------
  // The answers
  // --------------------------------------------------------------------------

  /** The mode a request asks for: one byte, 0 or 1. */
  function ModeAsked(payload: Bytes): Option<Mode> {
    if payload == [0] then Some(Mouse) else if payload == [1] then Some(Xac) else None
  }

  /** The answer to a request; `rival` says that the other link uploads. */
  function Answer(v: View, rival: bool, r: Request): Reply {
    var f := v.engine.flash;
    match r.kind
    case BeginFrame =>
      if |r.payload| != 4 then Error(InvalidArgument)
      else if f.slots[f.running].state == Pending then Error(OperationNotPermitted)
      else if rival then Error(EngineError(Busy))
      else Ok(0)
    case DataFrame =>
      if !v.link.owner then Error(OperationNotPermitted)
      else if |r.payload| <= 4 || GetU32(r.payload[..4]) != |v.engine.image| then Error(InvalidArgument)
      else Ok((|v.engine.image| + |r.payload| - 4) % 0x1_0000_0000)
    case FinishFrame =>
      if !v.link.owner then Error(OperationNotPermitted)
      else if !Begins(v.engine.image) then Error(EngineError(BadMessage))
      else Ok(0)
    case AbortFrame => Ok(0)
    case ConfirmFrame => Ok(0)
    case RevertFrame =>
      if r.payload != [] then Error(InvalidArgument)
      else if rival then Error(InProgress)
      else if !f.slots[1 - f.running].hasImage then Error(NoSuchDevice)
      else if f.slots[1 - f.running].partial then Error(IoFailure)
      else Ok(0)
    case RestartFrame => if r.payload == [] then Ok(0) else Error(InvalidArgument)
    case ModeFrame =>
      var asked := ModeAsked(r.payload);
      if asked.None? then Error(InvalidArgument) else if asked == Some(v.mode) then Ok(0) else Ok(1)
    case OtherFrame => NoReply
  }

  lemma AnsweredAsTabled(v: View, r: Request, now: int, rival: bool)
    requires Consistent(v, rival)
    ensures Handle(v, r, now).reply == Answer(v, rival, r)
  {
    match r.kind
    case FinishFrame => DescriptorExactlyWhen(v.engine.image);
    case ModeFrame =>
      if |r.payload| == 1 {
        assert r.payload == [r.payload[0]];
      }
    case _ =>
  }

  // --------------------------------------------------------------------------
  // What is left behind
  // --------------------------------------------------------------------------

  /** What a request that is answered OK has put off until the reply is out. */
  function PutOff(r: Request, answer: Reply): Option<Deferred> {
    if !answer.Ok? then None
    else if r.kind in {FinishFrame, RevertFrame, RestartFrame} then Some(Reboot)
    else if r.kind == ModeFrame && answer.value == 1 && ModeAsked(r.payload).Some?
    then Some(SwitchMode(ModeAsked(r.payload).value))
    else None
  }

  /** Whether the link uploads after a request. */
  predicate UploadsAfter(v: View, r: Request, answer: Reply) {
    match r.kind
    case BeginFrame => v.link.owner || answer.Ok?
    case FinishFrame => false
    case AbortFrame => false
    case RevertFrame => v.link.owner && r.payload != []
    case _ => v.link.owner
  }

  /** Whether the link holds the output after a request: it does from a begin, or from whatever was put off;
      the end of its own upload takes the hold down. */
  predicate HoldsAfter(v: View, r: Request, answer: Reply) {
    if PutOff(r, answer).Some? || (r.kind.BeginFrame? && answer.Ok?) then true
    else if v.link.owner && !UploadsAfter(v, r, answer) then false
    else v.link.holding
  }

  /** A request changes its link as its kind and its answer say, counts its hold, and touches neither the mode nor,
      unless it ends or feeds the upload of this very link, the bytes received. */
  lemma LeftAsTabled(v: View, r: Request, now: int, rival: bool)
    requires Consistent(v, rival)
    ensures
      var h := Handle(v, r, now);
      var (w, answer) := (h.view, Answer(v, rival, r));
      && w.link.owner == UploadsAfter(v, r, answer)
      && w.link.holding == HoldsAfter(v, r, answer)
      && w.link.deferred == (if PutOff(r, answer).Some? then PutOff(r, answer) else v.link.deferred)
      && w.holds == v.holds + Count(w.link.holding) - Count(v.link.holding)
      && w.mode == v.mode
      && w.engine.active == (w.link.owner || rival)
      && (r.kind.BeginFrame? && answer.Ok? ==> w.engine.imageSize == GetU32(r.payload) && w.engine.image == [])
      && (r.kind.DataFrame? && answer.Ok? ==>
            w.engine.imageSize == v.engine.imageSize && w.engine.image == v.engine.image + r.payload[4..])
      && (w.engine.active && !(answer.Ok? && r.kind in {BeginFrame, DataFrame}) ==>
            w.engine.imageSize == v.engine.imageSize && w.engine.image == v.engine.image)
  {
    AnsweredAsTabled(v, r, now, rival);
  }

  // --------------------------------------------------------------------------
  // Over whole runs
  // --------------------------------------------------------------------------

  /** What link i has put off and not yet taken up, given what it had before this step. */
  function Waiting(s: System, step: Step, i: nat, before: Option<Deferred>): Option<Deferred>
    requires WellFormed(s) && Enabled(s, step) && i < 2
  {
    match step
    case Frame(j, r, now) =>
      var put := PutOff(r, Handle(ViewOf(s, j), r, now).reply);
      if j == i && put.Some? then put else before
    case ReplySent(j, _) => if j == i then None else before
    case Reset(_, _, _) => None
    case CutBoot => None
    case _ => before
  }

  function WaitingInRun(s: System, steps: seq<Step>, i: nat, before: Option<Deferred>): Option<Deferred>
    requires Runnable(s, steps) && i < 2
    decreases |steps|
  {
    if steps == [] then before else WaitingInRun(Next(s, steps[0]), steps[1..], i, Waiting(s, steps[0], i, before))
  }

  lemma StepWaits(s: System, step: Step, i: nat)
    requires Invariant(s) && Enabled(s, step) && i < 2
    ensures WellFormed(Next(s, step)) && Next(s, step).links[i].deferred == Waiting(s, step, i, s.links[i].deferred)
  {
    if step.Frame? {
      var rival := s.links[1 - step.link].owner;
      AnsweredAsTabled(ViewOf(s, step.link), step.request, step.now, rival);
      LeftAsTabled(ViewOf(s, step.link), step.request, step.now, rival);
    }
  }

  lemma {:induction false} RunWaits(s: System, steps: seq<Step>, i: nat)
    requires Invariant(s) && Runnable(s, steps) && i < 2
    ensures WellFormed(Run(s, steps)) && Run(s, steps).links[i].deferred == WaitingInRun(s, steps, i, s.links[i].deferred)
    decreases |steps|
  {
    if steps != [] {
      StepWaits(s, steps[0], i);
      NextInvariant(s, steps[0]);
      RunWaits(Next(s, steps[0]), steps[1..], i);
    }
  }

  /** The mode after a step: only a reply handed over switches it, to what the request behind it asked for. */
  function ModeAfter(s: System, step: Step, waiting: seq<Option<Deferred>>): Mode
    requires |waiting| == 2 && (step.ReplySent? ==> step.link < 2)
  {
    if step.ReplySent? && step.queued && waiting[step.link].Some? && waiting[step.link].value.SwitchMode?
    then waiting[step.link].value.mode
    else s.mode
  }

  lemma StepAnswers(s: System, step: Step)
    requires Invariant(s) && Enabled(s, step)
    ensures step.Frame? ==>
              Handle(ViewOf(s, step.link), step.request, step.now).reply
              == Answer(ViewOf(s, step.link), s.links[1 - step.link].owner, step.request)
    ensures Next(s, step).mode == ModeAfter(s, step, [s.links[0].deferred, s.links[1].deferred])
  {
    if step.Frame? {
      var rival := s.links[1 - step.link].owner;
      AnsweredAsTabled(ViewOf(s, step.link), step.request, step.now, rival);
      LeftAsTabled(ViewOf(s, step.link), step.request, step.now, rival);
    }
  }

  /** In every run from the factory on, each request is answered as tabled, what a link has put off is what its
      requests were granted since its last reply, and the mode only ever becomes what was asked for there. */
  lemma RunAnswers(desc: Descriptor, mode: Mode, marker: nat, start: int, steps: seq<Step>, step: Step)
    requires Runnable(Factory(desc, mode, marker, start), steps)
    requires Enabled(Run(Factory(desc, mode, marker, start), steps), step)
    ensures
      var factory := Factory(desc, mode, marker, start);
      var s := Run(factory, steps);
      var waiting := [WaitingInRun(factory, steps, 0, None), WaitingInRun(factory, steps, 1, None)];
      && WellFormed(s)
      && (step.Frame? ==>
            Handle(ViewOf(s, step.link), step.request, step.now).reply
            == Answer(ViewOf(s, step.link), s.links[1 - step.link].owner, step.request))
      && s.links[0].deferred == waiting[0] && s.links[1].deferred == waiting[1]
      && Next(s, step).mode == ModeAfter(s, step, waiting)
  {
    var factory := Factory(desc, mode, marker, start);
    FactoryInvariant(desc, mode, marker, start);
    RunInvariant(factory, steps);
    RunWaits(factory, steps, 0);
    RunWaits(factory, steps, 1);
    StepAnswers(Run(factory, steps), step);
  }
}
