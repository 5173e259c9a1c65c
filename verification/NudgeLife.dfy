/**
 The whole life of a nudge, told from the ticks: which earlier reading a tick is compared with, and when a
 nudge begins, stays and ends.
 */
module NudgeLife {
  import opened Bytes
  import opened Options
  import opened SensorFaultModel
  import opened ControlModel
  import opened LoopRuns
  import opened NudgeRuns

  /** The tick whose reading tick k is compared with: its own after power-on and after a fault; otherwise the
      tick before, unless that one was live in a window still running, and then that window's. */
  function MeasuredAt(ms: seq<Mouse>, ts: seq<Tick>, k: nat): (i: nat)
    requires k < |ts| < |ms|
    ensures i <= k
    decreases k, 0
  {
    if k == 0 || ms[k].common.wasFaulted then k
    else if Live(ms, ts, k - 1) && !HoldTimeOver(ms, ts, k - 1) then MeasuredAt(ms, ts, k - 1)
    else k - 1
  }

  /** The hold time has passed between the reading tick k is compared with and tick k. */
  predicate HoldTimeOver(ms: seq<Mouse>, ts: seq<Tick>, k: nat)
    requires k < |ts| < |ms|
    decreases k, 1
  {
    var i := MeasuredAt(ms, ts, k);
    Millis(ts[k].input.now - ReadBy(ms[i], ts[i]).2) >= ts[k].input.settings.holdTime
  }

  /** What a tick compares its reading with, as the loop's state has it. */
  function Reference(m: Mouse, t: Tick): (real, real, int) {
    if !m.initialised || m.common.wasFaulted then (t.input.stick.x, t.input.stick.y, t.input.now) else Baseline(m)
  }

  /** What one tick does to nudge and baseline. */
  lemma LiveStep(hypot: Hypot, m: Mouse, t: Tick, next: Mouse)
    requires Follows(hypot, m, t, next) && Acts(m, t)
    requires m.common.wasFaulted == Faulted(m.common.monitor)
    ensures
      var from := Reference(m, t);
      var over := Millis(t.input.now - from.2) >= t.input.settings.holdTime;
      && !next.common.wasFaulted
      && Baseline(next) == (if over then ReadBy(m, t) else from)
      && next.nudge ==
           if !over then m.nudge
           else if m.nudge == NoNudge then
             if ComesFrom(hypot, from, t.input, Classify(t.input.stick.x, t.input.stick.y))
             then Classify(t.input.stick.x, t.input.stick.y) else NoNudge
           else if hypot(t.input.stick.x, t.input.stick.y) <= t.input.settings.exit then NoNudge
           else m.nudge
  {
  }

  lemma OtherStep(hypot: Hypot, m: Mouse, t: Tick, next: Mouse)
    requires Follows(hypot, m, t, next) && !Acts(m, t)
    requires m.common.wasFaulted == Faulted(m.common.monitor)
    ensures !next.common.wasFaulted ==> next.initialised && Baseline(next) == ReadBy(m, t)
  {
  }

  lemma {:induction false} ReferenceIsMeasured(hypot: Hypot, ms: seq<Mouse>, ts: seq<Tick>, k: nat)
    requires IsRun(hypot, ms, ts) && k < |ts| && Acts(ms[k], ts[k])
    ensures
      var i := MeasuredAt(ms, ts, k);
      Reference(ms[k], ts[k]) == ReadBy(ms[i], ts[i])
    decreases k
  {
    if k > 0 && !ms[k].common.wasFaulted {
      AlwaysMeasured(hypot, ms, ts, k - 1);
      AlwaysMeasured(hypot, ms, ts, k);
      RunStep(hypot, ms, ts, k - 1);
      assert Follows(hypot, ms[k - 1], ts[k - 1], ms[k - 1 + 1]);
      if Live(ms, ts, k - 1) {
        ReferenceIsMeasured(hypot, ms, ts, k - 1);
        LiveStep(hypot, ms[k - 1], ts[k - 1], ms[k]);
      } else {
        OtherStep(hypot, ms[k - 1], ts[k - 1], ms[k]);
      }
    }
  }

  /** The rule for the nudge a tick leaves held, given the one it finds. */
  function NudgeAfter(hypot: Hypot, ms: seq<Mouse>, ts: seq<Tick>, k: nat): Nudge
    requires k < |ts| < |ms|
  {
    var s := ts[k].input.stick;
    var i := MeasuredAt(ms, ts, k);
    var start := ReadBy(ms[i], ts[i]);
    if !Live(ms, ts, k) then NoNudge
    else if !HoldTimeOver(ms, ts, k) then ms[k].nudge
    else if ms[k].nudge != NoNudge then
      if hypot(s.x, s.y) <= ts[k].input.settings.exit then NoNudge else ms[k].nudge
    else if hypot(s.x, s.y) - hypot(start.0, start.1) >= ts[k].input.settings.distance then Classify(s.x, s.y)
    else NoNudge
  }

  lemma LiveTick(hypot: Hypot, ms: seq<Mouse>, ts: seq<Tick>, k: nat)
    requires IsRun(hypot, ms, ts) && k < |ts| && Live(ms, ts, k)
    requires ms[k].common.wasFaulted == Faulted(ms[k].common.monitor)
    ensures
      var (i, from) := (ts[k].input, Reference(ms[k], ts[k]));
      ms[k + 1].nudge ==
        if Millis(i.now - from.2) < i.settings.holdTime then ms[k].nudge
        else if ms[k].nudge == NoNudge then
          if ComesFrom(hypot, from, i, Classify(i.stick.x, i.stick.y)) then Classify(i.stick.x, i.stick.y) else NoNudge
        else if hypot(i.stick.x, i.stick.y) <= i.settings.exit then NoNudge
        else ms[k].nudge
  {
    assert Follows(hypot, ms[k], ts[k], ms[k + 1]);
    LiveStep(hypot, ms[k], ts[k], ms[k + 1]);
  }

  /** In every run each tick leaves exactly the nudge of the rule: it begins, stays and ends nowhere else. */
  lemma NudgeFollowsRule(hypot: Hypot, ms: seq<Mouse>, ts: seq<Tick>, k: nat)
    requires IsRun(hypot, ms, ts) && k < |ts|
    ensures ms[k + 1].nudge == NudgeAfter(hypot, ms, ts, k)
  {
    NothingHeldUnlessLive(hypot, ms, ts, k + 1);
    if Live(ms, ts, k) {
      AlwaysMeasured(hypot, ms, ts, k);
      ReferenceIsMeasured(hypot, ms, ts, k);
      LiveTick(hypot, ms, ts, k);
    }
  }

  /** A nudge that is held ends with a live tick if and only if the hold time has passed since the reading the
      tick is compared with and the stick is back within the exit threshold; otherwise it stays the same. */
  lemma EndsExactlyWhen(hypot: Hypot, ms: seq<Mouse>, ts: seq<Tick>, k: nat)
    requires IsRun(hypot, ms, ts) && k < |ts| && Live(ms, ts, k) && ms[k].nudge != NoNudge
    ensures
      var s := ts[k].input.stick;
      && (ms[k + 1].nudge == NoNudge <==>
            HoldTimeOver(ms, ts, k) && hypot(s.x, s.y) <= ts[k].input.settings.exit)
      && (ms[k + 1].nudge != NoNudge ==> ms[k + 1].nudge == ms[k].nudge)
  {
    NudgeFollowsRule(hypot, ms, ts, k);
  }

  /** And one begins with a live tick if and only if the stick has moved outward by the threshold since that
      reading, at least the hold time ago; it is the one the stick points to. */
  lemma BeginsExactlyWhen(hypot: Hypot, ms: seq<Mouse>, ts: seq<Tick>, k: nat)
    requires IsRun(hypot, ms, ts) && k < |ts| && Live(ms, ts, k) && ms[k].nudge == NoNudge
    ensures
      var i := MeasuredAt(ms, ts, k);
      var s := ts[k].input.stick;
      ms[k + 1].nudge ==
        if ComesFrom(hypot, ReadBy(ms[i], ts[i]), ts[k].input, Classify(s.x, s.y)) then Classify(s.x, s.y) else NoNudge
  {
    NudgeFollowsRule(hypot, ms, ts, k);
  }
}
