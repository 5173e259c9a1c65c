/** How long an upload has been idle, told from the requests and their replies. */
module UploadIdle {
  import opened Bytes
  import opened Options
  import opened OtaModel
  import opened ServiceModel
  import opened UpdateSystem
  import FlashModel

  /** A begin or a chunk of link i is answered OK. */
  predicate Feeds(s: System, step: Step, i: nat)
    requires WellFormed(s) && Enabled(s, step) && i < 2
  {
    && step.Frame? && step.link == i
    && (step.request.kind.BeginFrame? || step.request.kind.DataFrame?)
    && Handle(ViewOf(s, i), step.request, step.now).reply.Ok?
  }

  /** When the link was last fed, given when it was before this step. */
  function FedBy(s: System, step: Step, i: nat, before: Option<int>): Option<int>
    requires WellFormed(s) && Enabled(s, step) && i < 2
  {
    if Feeds(s, step, i) then Some(step.now) else before
  }

  function Fed(s: System, steps: seq<Step>, i: nat, before: Option<int>): Option<int>
    requires Runnable(s, steps) && i < 2
    decreases |steps|
  {
    if steps == [] then before else Fed(Next(s, steps[0]), steps[1..], i, FedBy(s, steps[0], i, before))
  }

  /** A link that uploads has its time stamp from when it was last fed. */
  predicate Stamped(s: System, i: nat, fed: Option<int>)
    requires WellFormed(s) && i < 2
  {
    s.links[i].owner ==> fed == Some(s.links[i].lastActivity)
  }

  lemma RequestStamps(v: View, r: Request, now: int)
    requires v.link.owner ==> v.engine.active
    ensures
      var h := Handle(v, r, now);
      h.view.link.owner ==>
        if (r.kind.BeginFrame? || r.kind.DataFrame?) && h.reply.Ok? then h.view.link.lastActivity == now
        else v.link.owner && h.view.link.lastActivity == v.link.lastActivity
  {
  }

  lemma StepStamps(s: System, step: Step, i: nat, fed: Option<int>)
    requires Invariant(s) && Enabled(s, step) && i < 2 && Stamped(s, i, fed)
    ensures WellFormed(Next(s, step)) && Stamped(Next(s, step), i, FedBy(s, step, i, fed))
  {
    if step.Frame? && step.link == i {
      RequestStamps(ViewOf(s, i), step.request, step.now);
    }
  }

  lemma {:induction false} RunStamps(s: System, steps: seq<Step>, i: nat, fed: Option<int>)
    requires Invariant(s) && Runnable(s, steps) && i < 2 && Stamped(s, i, fed)
    ensures WellFormed(Run(s, steps)) && Stamped(Run(s, steps), i, Fed(s, steps, i, fed))
    decreases |steps|
  {
    if steps != [] {
      StepStamps(s, steps[0], i, fed);
      NextInvariant(s, steps[0]);
      RunStamps(Next(s, steps[0]), steps[1..], i, FedBy(s, steps[0], i, fed));
    }
  }

  /** In every run from the factory on, a link that uploads has been fed, and its time stamp is the time of the
      latest begin or chunk of its that was answered OK. */
  lemma StampIsLatestFeed(desc: FlashModel.Descriptor, mode: Mode, marker: nat, now: int, steps: seq<Step>, i: nat)
    requires Runnable(Factory(desc, mode, marker, now), steps) && i < 2
    ensures
      var s := Run(Factory(desc, mode, marker, now), steps);
      Invariant(s) && Stamped(s, i, Fed(Factory(desc, mode, marker, now), steps, i, None))
  {
    FactoryInvariant(desc, mode, marker, now);
    RunInvariant(Factory(desc, mode, marker, now), steps);
    RunStamps(Factory(desc, mode, marker, now), steps, i, None);
  }

  /** In every run from the factory on, an expiry check ends the upload of a link, and drops its hold, if and
      only if no begin or chunk of that link was answered OK within the last `maxIdle`. */
  lemma ExpiryEndsExactlyWhen(desc: FlashModel.Descriptor, mode: Mode, marker: nat, start: int, steps: seq<Step>,
                              i: nat, maxIdle: int, now: int)
    requires Runnable(Factory(desc, mode, marker, start), steps) && i < 2
    requires Enabled(Run(Factory(desc, mode, marker, start), steps), ExpiryCheck(i, maxIdle, now))
    requires WellFormed(Run(Factory(desc, mode, marker, start), steps))
    requires Run(Factory(desc, mode, marker, start), steps).links[i].owner
    ensures
      var s := Run(Factory(desc, mode, marker, start), steps);
      var t := Next(s, ExpiryCheck(i, maxIdle, now));
      var fed := Fed(Factory(desc, mode, marker, start), steps, i, None);
      && fed.Some?
      && (if now - fed.value >= maxIdle
          then !t.links[i].owner && !t.engine.active && !t.links[i].holding && t.holds == s.holds - 1
          else t == s)
  {
    StampIsLatestFeed(desc, mode, marker, start, steps, i);
  }

  /** For instance: a chunk 25 s after the begin, and a check 6 s later that allows 30. */
  lemma FedUploadIsKept(s: System, i: nat, size: Bytes, data: Bytes, now: int)
    requires Invariant(s) && Enabled(s, Frame(i, Request(BeginFrame, size), now)) && i < 2 && |size| == 4
    requires !s.rollingBack && !FlashModel.PendingVerify(s.engine.flash) && !s.engine.active
    requires data != []
    ensures
      var begin := Frame(i, Request(BeginFrame, size), now);
      var chunk := Frame(i, Request(DataFrame, PutU32(0) + data), now + 25_000);
      var uploading := Next(Next(s, begin), chunk);
      uploading.links[i].owner && Next(uploading, ExpiryCheck(i, 30_000, now + 31_000)) == uploading
  {
    U32RoundTrip(0);
    assert (PutU32(0) + data)[..4] == PutU32(0);
  }
}
