/** What whole runs of the mouse loop can and cannot turn into a click. */
module NudgeRuns {
  import opened Bytes
  import opened Options
  import opened Calibration
  import opened DriftModel
  import opened SensorFaultModel
  import opened ControlModel
  import opened LoopRuns

  ghost predicate Follows(hypot: Hypot, m: Mouse, t: Tick, next: Mouse) {
    next == MouseTick(hypot, m, t.input, t.answers)
  }

  /** The loop goes through these states, from power-on, one tick after the other. */
  ghost predicate IsRun(hypot: Hypot, ms: seq<Mouse>, ts: seq<Tick>) {
    && |ms| == |ts| + 1
    && ms[0].common.monitor == SensorFaultModel.FRESH && !ms[0].common.wasFaulted
    && ms[0].common.goodReads == 0 && !ms[0].common.observed
    && ms[0].common.drift == AT_REST && ms[0].common.driftNudges == 0
    && ms[0].nudge == NoNudge && !ms[0].initialised
    && forall k :: 0 <= k < |ts| ==> Follows(hypot, ms[k], ts[k], ms[k + 1])
  }

  predicate Acts(m: Mouse, t: Tick) {
    ModeOf(m.common, t.input) == Running && t.input.settings.enabled
  }

  /** Tick k acts on the stick: clicks are on, nothing holds the output, the sensor is trusted and no
      sweep runs. */
  predicate Live(ms: seq<Mouse>, ts: seq<Tick>, k: nat)
    requires k < |ts| < |ms|
  {
    Acts(ms[k], ts[k])
  }

  /** The reading a tick leaves the loop with, and when it was taken. */
  function ReadBy(m: Mouse, t: Tick): (real, real, int) {
    if ModeOf(m.common, t.input) == Recalibrating then (t.answers.post.x, t.answers.post.y, t.answers.doneAt)
    else (t.input.stick.x, t.input.stick.y, t.input.now)
  }

  function Baseline(m: Mouse): (real, real, int) {
    (m.prevX, m.prevY, m.windowStart)
  }

  /** After k ticks the loop measures from what tick i read, and every tick since was live. */
  ghost predicate MeasuredFrom(ms: seq<Mouse>, ts: seq<Tick>, k: nat, i: nat)
    requires k <= |ts| < |ms|
  {
    && i < k
    && Baseline(ms[k]) == ReadBy(ms[i], ts[i])
    && forall j :: i < j < k ==> Live(ms, ts, j)
  }

  /** What one tick does to the baseline: moves it to the tick's own reading, or leaves it. */
  lemma BaselineStep(hypot: Hypot, m: Mouse, t: Tick, next: Mouse)
    requires Follows(hypot, m, t, next)
    requires m.common.wasFaulted == Faulted(m.common.monitor)
    ensures next.common.wasFaulted == Faulted(next.common.monitor)
    ensures m.initialised ==> next.initialised
    ensures !next.common.wasFaulted ==>
      && next.initialised
      && (|| Baseline(next) == ReadBy(m, t)
          || (m.initialised && !m.common.wasFaulted && Baseline(next) == Baseline(m) && Acts(m, t)))
  {
  }

  lemma RunStep(hypot: Hypot, ms: seq<Mouse>, ts: seq<Tick>, k: nat)
    requires IsRun(hypot, ms, ts) && k < |ts|
    requires ms[k].common.wasFaulted == Faulted(ms[k].common.monitor)
    ensures ms[k + 1].common.wasFaulted == Faulted(ms[k + 1].common.monitor)
    ensures !ms[k + 1].common.wasFaulted ==>
      && ms[k + 1].initialised
      && (|| Baseline(ms[k + 1]) == ReadBy(ms[k], ts[k])
          || (ms[k].initialised && !ms[k].common.wasFaulted && Baseline(ms[k + 1]) == Baseline(ms[k]) && Live(ms, ts, k)))
  {
    assert Follows(hypot, ms[k], ts[k], ms[k + 1]);
    BaselineStep(hypot, ms[k], ts[k], ms[k + 1]);
  }

  /** A tick measures from the one before, or goes on measuring from where that one did. */
  lemma MeasuredOn(ms: seq<Mouse>, ts: seq<Tick>, k: nat)
    requires 0 < k <= |ts| < |ms|
    requires
      || Baseline(ms[k]) == ReadBy(ms[k - 1], ts[k - 1])
      || (Baseline(ms[k]) == Baseline(ms[k - 1]) && Live(ms, ts, k - 1) && Measured(ms, ts, k - 1))
    ensures Measured(ms, ts, k)
  {
    if Baseline(ms[k]) == ReadBy(ms[k - 1], ts[k - 1]) {
      assert MeasuredFrom(ms, ts, k, k - 1);
    } else {
      var i: nat :| MeasuredFrom(ms, ts, k - 1, i);
      assert MeasuredFrom(ms, ts, k, i);
    }
  }

  /** While the sensor is trusted the loop measures from some tick with only live ones since. */
  lemma {:induction false} AlwaysMeasured(hypot: Hypot, ms: seq<Mouse>, ts: seq<Tick>, k: nat)
    requires IsRun(hypot, ms, ts) && k <= |ts|
    ensures ms[k].common.wasFaulted == Faulted(ms[k].common.monitor)
    ensures ms[k].initialised && !ms[k].common.wasFaulted ==> Measured(ms, ts, k)
  {
    if k > 0 {
      AlwaysMeasured(hypot, ms, ts, k - 1);
      RunStep(hypot, ms, ts, k - 1);
      if !ms[k].common.wasFaulted {
        MeasuredOn(ms, ts, k);
      }
    }
  }

  /** What a nudge that begins with tick k comes from: the reading of an earlier tick i. */
  ghost predicate Measured(ms: seq<Mouse>, ts: seq<Tick>, k: nat)
    requires k <= |ts| < |ms|
  {
    exists i: nat :: MeasuredFrom(ms, ts, k, i)
  }

  ghost predicate Provenance(hypot: Hypot, ms: seq<Mouse>, ts: seq<Tick>, k: nat, i: nat)
    requires k < |ts| < |ms|
  {
    && i < k
    && (forall j :: i < j <= k ==> Live(ms, ts, j))
    && ComesFrom(hypot, ReadBy(ms[i], ts[i]), ts[k].input, ms[k + 1].nudge)
  }

  /** The stick moved outward by the threshold in at least the hold time, and now points the nudge's way. */
  predicate ComesFrom(hypot: Hypot, from: (real, real, int), i: Input, nudge: Nudge) {
    && Millis(i.now - from.2) >= i.settings.holdTime
    && hypot(i.stick.x, i.stick.y) - hypot(from.0, from.1) >= i.settings.distance
    && nudge == Classify(i.stick.x, i.stick.y)
  }

  lemma StartStep(hypot: Hypot, m: Mouse, t: Tick, next: Mouse)
    requires Follows(hypot, m, t, next)
    requires m.common.wasFaulted == Faulted(m.common.monitor)
    requires m.nudge == NoNudge && next.nudge != NoNudge && t.input.settings.distance > 0.0
    ensures Acts(m, t) && m.initialised && !m.common.wasFaulted
    ensures ComesFrom(hypot, Baseline(m), t.input, next.nudge)
  {
  }

  lemma MeasuredNudge(hypot: Hypot, ms: seq<Mouse>, ts: seq<Tick>, k: nat)
    requires k < |ts| < |ms| && Measured(ms, ts, k) && Live(ms, ts, k)
    requires ComesFrom(hypot, Baseline(ms[k]), ts[k].input, ms[k + 1].nudge)
    ensures exists i: nat :: Provenance(hypot, ms, ts, k, i)
  {
    var i: nat :| MeasuredFrom(ms, ts, k, i);
    assert Provenance(hypot, ms, ts, k, i);
  }

  lemma StartInRun(hypot: Hypot, ms: seq<Mouse>, ts: seq<Tick>, k: nat)
    requires IsRun(hypot, ms, ts) && k < |ts|
    requires ms[k].common.wasFaulted == Faulted(ms[k].common.monitor)
    requires ms[k].nudge == NoNudge && ms[k + 1].nudge != NoNudge
    requires ts[k].input.settings.distance > 0.0
    ensures Live(ms, ts, k) && ms[k].initialised && !ms[k].common.wasFaulted
    ensures ComesFrom(hypot, Baseline(ms[k]), ts[k].input, ms[k + 1].nudge)
  {
    assert Follows(hypot, ms[k], ts[k], ms[k + 1]);
    StartStep(hypot, ms[k], ts[k], ms[k + 1]);
  }

  /** With a positive threshold, a click comes from a movement measured from an earlier tick, at
      least the hold time ago, with only live ticks since: nothing done while clicks were off, the
      output held, the sensor faulty or a sweep running becomes a click. */
  lemma NudgeProvenance(hypot: Hypot, ms: seq<Mouse>, ts: seq<Tick>, k: nat)
    requires IsRun(hypot, ms, ts) && k < |ts|
    requires ms[k].nudge == NoNudge && ms[k + 1].nudge != NoNudge
    requires ts[k].input.settings.distance > 0.0
    ensures exists i: nat :: Provenance(hypot, ms, ts, k, i)
  {
    AlwaysMeasured(hypot, ms, ts, k);
    StartInRun(hypot, ms, ts, k);
    MeasuredNudge(hypot, ms, ts, k);
  }

  // --------------------------------------------------------------------------
  // Letting go
  // --------------------------------------------------------------------------

  lemma ReleaseStep(hypot: Hypot, m: Mouse, t: Tick, next: Mouse)
    requires Follows(hypot, m, t, next)
    requires m.common.wasFaulted == Faulted(m.common.monitor)
    requires m.common.wasFaulted ==> m.nudge == NoNudge
    ensures next.common.wasFaulted ==> next.nudge == NoNudge
    ensures !Acts(m, t) ==> next.nudge == NoNudge
  {
  }

  /** A tick that is not live ends any nudge: no button or scroll outlives the switch, a hold, a fault
      or the start of a sweep. */
  lemma {:induction false} NothingHeldUnlessLive(hypot: Hypot, ms: seq<Mouse>, ts: seq<Tick>, k: nat)
    requires IsRun(hypot, ms, ts) && k <= |ts|
    ensures ms[k].common.wasFaulted ==> ms[k].nudge == NoNudge
    ensures k > 0 && !Live(ms, ts, k - 1) ==> ms[k].nudge == NoNudge
  {
    if k > 0 {
      NothingHeldUnlessLive(hypot, ms, ts, k - 1);
      AlwaysMeasured(hypot, ms, ts, k - 1);
      assert Follows(hypot, ms[k - 1], ts[k - 1], ms[k - 1 + 1]);
      ReleaseStep(hypot, ms[k - 1], ts[k - 1], ms[k]);
    }
  }

  // --------------------------------------------------------------------------
  // What a running tick reports
  // --------------------------------------------------------------------------

  /** The direction is the axis that the stick leans along most; on the diagonal, left or right. */
  lemma ClassifyPicksDominantAxis(x: real, y: real)
    ensures Classify(x, y) == Right <==> x >= Abs(y)
    ensures Classify(x, y) == Left <==> x < 0.0 && -x >= Abs(y)
    ensures Classify(x, y) == Forward <==> -y > Abs(x)
    ensures Classify(x, y) == Back <==> y > Abs(x)
  {
  }

  /** Movement is the closest whole number toward zero, as far as a report can say. */
  lemma DeltaIsTruncation(v: real)
    ensures 0.0 <= v < 128.0 ==> ToDelta(v) as real <= v < ToDelta(v) as real + 1.0
    ensures -128.0 < v <= 0.0 ==> ToDelta(v) as real - 1.0 < v <= ToDelta(v) as real
    ensures v >= 127.0 ==> ToDelta(v) == 127
    ensures v <= -127.0 ==> ToDelta(v) == -127
  {
    if v < 0.0 {
      assert (-v).Floor as real <= -v < (-v).Floor as real + 1.0;
    }
  }

  /** A duration counts in whole milliseconds, those not yet over left out. */
  lemma MillisIsTruncation(d: int)
    ensures d >= 0 ==> Millis(d) * 1_000_000 <= d < (Millis(d) + 1) * 1_000_000
    ensures d <= 0 ==> (Millis(d) - 1) * 1_000_000 < d <= Millis(d) * 1_000_000
  {
    if d < 0 {
      var n := (-d) / MILLISECOND;
      assert n * 1_000_000 <= -d < (n + 1) * 1_000_000;
    }
  }

  /** The report a tick sends when it is running. */
  function RunningReport(hypot: Hypot, m: Mouse, t: Tick): MouseReport {
    ReportOf(CountScroll(DetectStep(hypot, SensorEdges(m, t.input), t.input)), t.input)
  }

  /** A running tick sends one kind of report, and it says what the nudge it leaves held means. */
  lemma RunningReportsNudge(hypot: Hypot, m: Mouse, t: Tick, next: Mouse)
    requires Follows(hypot, m, t, next) && ModeOf(m.common, t.input) == Running
    ensures
      var report := RunningReport(hypot, m, t);
      && OnlySends(MouseEffects(hypot, m, t.input, t.answers), report)
      && report.buttons == (if next.nudge == Forward then 1 else if next.nudge == Right then 2 else 0)
      && (report.wheel > 0 ==> next.nudge == Left) && (report.wheel < 0 ==> next.nudge == Back)
      && report.dx == (if next.nudge == NoNudge then ToDelta(15.0 * t.input.stick.x) else 0)
      && report.dy == (if next.nudge == NoNudge then ToDelta(15.0 * t.input.stick.y) else 0)
  {
    var report := RunningReport(hypot, m, t);
    var next := CountScroll(DetectStep(hypot, SensorEdges(m, t.input), t.input));
    var drift: seq<Effect<MouseReport>> :=
      DriftEffects(next.common, t.input, hypot(t.input.stick.x, t.input.stick.y));
    var own: seq<Effect<MouseReport>> := [Send(report)];
    assert (own + drift)[0] == Send(report);
    OnlySendsAfter(SensorEffects(m.common, t.input.stick), own + drift, report);
  }

  lemma ScrollStep(hypot: Hypot, m: Mouse, t: Tick, next: Mouse)
    requires Follows(hypot, m, t, next)
    requires m.common.wasFaulted ==> m.nudge == NoNudge
    requires next.nudge == Left || next.nudge == Back
    ensures ModeOf(m.common, t.input) == Running
    ensures m.nudge == NoNudge || m.nudge == next.nudge
    ensures next.scrollPolls == 1 + if m.nudge == next.nudge then m.scrollPolls else 0
    ensures RunningReport(hypot, m, t).wheel ==
            if next.scrollPolls % SCROLL_DIVIDER != 0 then 0 else if next.nudge == Left then 1 else -1
  {
  }

  lemma {:induction false} ScrollCounts(hypot: Hypot, ms: seq<Mouse>, ts: seq<Tick>, k: nat, n: nat)
    requires IsRun(hypot, ms, ts) && k + n < |ts|
    requires ms[k].nudge == NoNudge
    requires forall i :: k < i <= k + n + 1 ==> ms[i].nudge == Left || ms[i].nudge == Back
    ensures ms[k + n + 1].scrollPolls == n + 1 && ms[k + n + 1].nudge == ms[k + 1].nudge
  {
    NothingHeldUnlessLive(hypot, ms, ts, k + n);
    assert Follows(hypot, ms[k + n], ts[k + n], ms[k + n + 1]);
    ScrollStep(hypot, ms[k + n], ts[k + n], ms[k + n + 1]);
    if n > 0 {
      ScrollCounts(hypot, ms, ts, k, n - 1);
    }
  }

  /** A scroll nudge that begins with tick k and is still held n ticks later scrolls one step, up or
      down, on every fifth tick and on no other. */
  lemma ScrollsEveryFifthTick(hypot: Hypot, ms: seq<Mouse>, ts: seq<Tick>, k: nat, n: nat)
    requires IsRun(hypot, ms, ts) && k + n < |ts|
    requires ms[k].nudge == NoNudge
    requires forall i :: k < i <= k + n + 1 ==> ms[i].nudge == Left || ms[i].nudge == Back
    ensures RunningReport(hypot, ms[k + n], ts[k + n]).wheel ==
            if (n + 1) % SCROLL_DIVIDER != 0 then 0 else if ms[k + 1].nudge == Left then 1 else -1
  {
    ScrollCounts(hypot, ms, ts, k, n);
    NothingHeldUnlessLive(hypot, ms, ts, k + n);
    assert Follows(hypot, ms[k + n], ts[k + n], ms[k + n + 1]);
    ScrollStep(hypot, ms[k + n], ts[k + n], ms[k + n + 1]);
  }

  // --------------------------------------------------------------------------
  // What holds for either loop
  // --------------------------------------------------------------------------

  function CommonsOf(ms: seq<Mouse>): seq<Common> {
    seq(|ms|, k requires 0 <= k < |ms| => ms[k].common)
  }

  /** Inside a run of the mouse loop is a run of the common state. */
  lemma MouseRunIsLoopRun(hypot: Hypot, ms: seq<Mouse>, ts: seq<Tick>)
    requires IsRun(hypot, ms, ts)
    ensures IsLoopRun(hypot, CommonsOf(ms), ts)
  {
    var cs := CommonsOf(ms);
    forall k | 0 <= k < |ts| ensures CommonFollows(hypot, cs[k], ts[k], cs[k + 1]) {
      assert Follows(hypot, ms[k], ts[k], ms[k + 1]);
      MouseSharesCommon(hypot, ms[k], ts[k].input, ts[k].answers);
    }
  }

  /** Mouse: from the reading that trips the monitor until the history recovers, every tick that runs
      no sweep reports a stick at rest. */
  lemma MouseNeutralWhileFaulty(hypot: Hypot, ms: seq<Mouse>, ts: seq<Tick>, k: nat, i: nat, fault: Fault)
    requires IsRun(hypot, ms, ts) && k < |ts| && !ts[k].input.recalibrate
    requires fault != NoFault && Holds(ms[0].common.config, Readings(ts[..k + 1]), i, fault)
    ensures OnlySends(MouseEffects(hypot, ms[k], ts[k].input, ts[k].answers), NEUTRAL_MOUSE)
  {
    MouseRunIsLoopRun(hypot, ms, ts);
    NotRunningWhileFaulty(hypot, CommonsOf(ms), ts, k, i, fault);
    MouseNeutralUnlessRunning(hypot, ms[k], ts[k].input, ts[k].answers);
  }

  /** Which ticks of a mouse run save to flash. */
  function MouseSaveFlags(hypot: Hypot, ms: seq<Mouse>, ts: seq<Tick>): seq<bool>
    requires |ms| == |ts| + 1
  {
    seq(|ts|, k requires 0 <= k < |ts| => Saves(MouseEffects(hypot, ms[k], ts[k].input, ts[k].answers)))
  }

  /** Mouse: drift correction asks for few saves. */
  lemma MouseDriftSavesAreFew(hypot: Hypot, ms: seq<Mouse>, ts: seq<Tick>, first: int, last: int)
    requires IsRun(hypot, ms, ts) && Clocked(ts, first, last)
    ensures CountTrue(MouseSaveFlags(hypot, ms, ts)) <= ((last - first) / MIN_NUDGE_INTERVAL + 1) / SAVE_EVERY
  {
    var cs := CommonsOf(ms);
    MouseRunIsLoopRun(hypot, ms, ts);
    forall k | 0 <= k < |ts| ensures MouseSaveFlags(hypot, ms, ts)[k] == DueFlags(hypot, cs, ts)[k] {
      MouseSavesWhenDue(hypot, ms[k], ts[k].input, ts[k].answers);
    }
    assert MouseSaveFlags(hypot, ms, ts) == DueFlags(hypot, cs, ts);
    DueAreFew(hypot, cs, ts, first, last);
  }
}
