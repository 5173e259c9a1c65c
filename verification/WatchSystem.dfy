/** The rollback watch in the running device: since a reset, its health checks are a run of the watch. */
module WatchSystem {
  import opened Bytes
  import opened Options
  import opened FlashModel
  import opened UpdateSystem
  import opened WatchRuns
  import H = HealthModel

  predicate NoReset(steps: seq<Step>) {
    forall i :: 0 <= i < |steps| ==> !StartsOver(steps[i])
  }

  /** The health checks of a stretch: when each came, and whether it found the image unconfirmed. */
  function Checks(s: System, steps: seq<Step>): seq<Check>
    requires Runnable(s, steps)
    decreases |steps|
  {
    if steps == [] then []
    else
      (if steps[0].HealthCheck? then [Check(PendingVerify(s.engine.flash), steps[0].now)] else [])
      + Checks(Next(s, steps[0]), steps[1..])
  }

  /** The watch before each of these checks and after the last one. */
  function Watches(w: H.Watch, cs: seq<Check>): (ws: seq<H.Watch>)
    ensures |ws| == |cs| + 1 && ws[0] == w
    decreases |cs|
  {
    if cs == [] then [w] else [w] + Watches(H.Tick(w, cs[0].pending, cs[0].now).watch, cs[1..])
  }

  lemma {:induction false} WatchesFollow(w: H.Watch, cs: seq<Check>, k: nat)
    requires k < |cs|
    ensures Follows(Watches(w, cs)[k], cs[k], Watches(w, cs)[k + 1])
    decreases |cs|
  {
    if k > 0 {
      WatchesFollow(H.Tick(w, cs[0].pending, cs[0].now).watch, cs[1..], k - 1);
    }
  }

  lemma WatchesAreRun(pending: bool, start: int, cs: seq<Check>)
    ensures IsRun(pending, start, Watches(H.StartWatch(pending, start), cs), cs)
  {
    forall k | 0 <= k < |cs|
      ensures Follows(Watches(H.StartWatch(pending, start), cs)[k], cs[k], Watches(H.StartWatch(pending, start), cs)[k + 1])
    {
      WatchesFollow(H.StartWatch(pending, start), cs, k);
    }
  }

  lemma OnlyChecksMoveWatch(s: System, step: Step)
    requires WellFormed(s) && Enabled(s, step) && !StartsOver(step)
    ensures Next(s, step).watch ==
            if step.HealthCheck? then H.Tick(s.watch, PendingVerify(s.engine.flash), step.now).watch else s.watch
  {
  }

  lemma {:induction false} WatchAfterRun(s: System, steps: seq<Step>)
    requires Runnable(s, steps) && NoReset(steps)
    ensures Run(s, steps).watch == Watches(s.watch, Checks(s, steps))[|Checks(s, steps)|]
    decreases |steps|
  {
    if steps != [] {
      OnlyChecksMoveWatch(s, steps[0]);
      WatchAfterRun(Next(s, steps[0]), steps[1..]);
      var more := Checks(Next(s, steps[0]), steps[1..]);
      if steps[0].HealthCheck? {
        assert Checks(s, steps)[1..] == more;
      } else {
        assert Checks(s, steps) == more;
      }
    }
  }

  lemma {:induction false} WatchesOfPrefix(w: H.Watch, cs: seq<Check>, c: Check)
    ensures Watches(w, cs + [c])[|cs|] == Watches(w, cs)[|cs|]
    decreases |cs|
  {
    if cs != [] {
      assert (cs + [c])[1..] == cs[1..] + [c];
      WatchesOfPrefix(H.Tick(w, cs[0].pending, cs[0].now).watch, cs[1..], c);
    }
  }

  /**
   After a reset at `start`, whatever the links did since: a health check puts the output on hold exactly when it is
   the first due one past the deadline and every one before found the image unconfirmed, and a rollback begins
   exactly with the first check a hold time later, if the image is unconfirmed still.
   */
  lemma ChecksActExactlyWhen(s: System, powerOn: bool, crashes: seq<bool>, start: int, steps: seq<Step>, now: int)
    requires Invariant(s) && Enabled(s, Reset(powerOn, crashes, start))
    requires Runnable(Next(s, Reset(powerOn, crashes, start)), steps) && NoReset(steps)
    requires Enabled(Run(Next(s, Reset(powerOn, crashes, start)), steps), HealthCheck(now))
    requires WellFormed(Run(Next(s, Reset(powerOn, crashes, start)), steps))
    ensures
      var booted := Next(s, Reset(powerOn, crashes, start));
      var t := Run(booted, steps);
      var cs := Checks(booted, steps) + [Check(PendingVerify(t.engine.flash), now)];
      var (k, pending) := (|cs| - 1, PendingVerify(booted.engine.flash));
      && (Next(t, HealthCheck(now)).holds == t.holds + 1 <==> HoldDue(pending, start, cs, k))
      && (Next(t, HealthCheck(now)).rollingBack <==>
            cs[k].pending && exists h: nat :: RollbackDue(pending, start, cs, h, k))
  {
    var booted := Next(s, Reset(powerOn, crashes, start));
    var t := Run(booted, steps);
    var before := Checks(booted, steps);
    var c := Check(PendingVerify(t.engine.flash), now);
    var pending := PendingVerify(booted.engine.flash);
    var ws := Watches(booted.watch, before + [c]);
    assert booted.watch == H.StartWatch(pending, start);
    WatchAfterRun(booted, steps);
    WatchesOfPrefix(booted.watch, before, c);
    WatchesAreRun(pending, start, before + [c]);
    HoldsExactlyWhen(pending, start, ws, before + [c], |before|);
    RollsBackExactlyWhen(pending, start, ws, before + [c], |before|);
    CheckActs(t, now);
  }

  lemma CheckActs(t: System, now: int)
    requires WellFormed(t) && Enabled(t, HealthCheck(now))
    ensures
      var action := H.Tick(t.watch, PendingVerify(t.engine.flash), now).action;
      && (Next(t, HealthCheck(now)).holds == t.holds + 1 <==> action.HoldOutput?)
      && (Next(t, HealthCheck(now)).rollingBack <==> action.RollBack? && PendingVerify(t.engine.flash))
  {
  }
}
