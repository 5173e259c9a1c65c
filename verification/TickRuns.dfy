/**
 What a tick of either loop does, told from the readings, the settings and the corrections of its run: which
 way the tick goes, the calls it makes in order, and the calibration it goes on with.
 */
module TickRuns {
  import opened Bytes
  import opened Options
  import opened Calibration
  import opened DriftModel
  import opened SensorFaultModel
  import opened ControlModel
  import opened LoopRuns
  import opened NudgeRuns
  import DriftDwell

  // --------------------------------------------------------------------------
  // Which way a tick goes
  // --------------------------------------------------------------------------

  /** Some reading of this history tripped the monitor, and nothing since has recovered it. */
  ghost predicate Faulty(c: Config, h: seq<Reading>) {
    exists i: nat, fault :: fault != NoFault && Holds(c, h, i, fault)
  }

  /** The readings up to and with tick k. */
  function Seen(ts: seq<Tick>, k: nat): seq<Reading>
    requires k <= |ts|
  {
    Readings(ts[..k])
  }

  /** A hold comes first; a recalibration that was asked for overrides the hold for calibration, and a fault. */
  ghost function ModeBy(c: Config, ts: seq<Tick>, k: nat): Mode
    requires k < |ts|
  {
    var i := ts[k].input;
    if i.outputHold then Held
    else if i.recalibrate then Recalibrating
    else if i.needsCalibration then Held
    else if Faulty(c, Seen(ts, k + 1)) then SensorDown
    else Running
  }

  lemma FaultedIsFaulty(hypot: Hypot, cs: seq<Common>, ts: seq<Tick>, k: nat)
    requires IsLoopRun(hypot, cs, ts) && k <= |ts|
    ensures cs[k].config == cs[0].config
    ensures Faulted(cs[k].monitor) <==> Faulty(cs[0].config, Seen(ts, k))
    ensures cs[k].monitor.fault == FaultAfter(cs[0].config, Seen(ts, k))
    ensures cs[k].monitor.faultCount == FaultsSeen(cs[0].config, Seen(ts, k))
  {
    MonitorSeesEveryTick(hypot, cs, ts, k);
    FaultedExactlyWhen(cs[0].config, Seen(ts, k));
    ObserveReflects(cs[0].config, Seen(ts, k));
  }

  lemma NextMonitor(hypot: Hypot, cs: seq<Common>, ts: seq<Tick>, k: nat)
    requires IsLoopRun(hypot, cs, ts) && k < |ts|
    ensures cs[k + 1].monitor == Observe(cs[k].config, cs[k].monitor, ReadingOf(ts[k].input.stick))
  {
    assert CommonFollows(hypot, cs[k], ts[k], cs[k + 1]);
    MonitorStep(hypot, cs[k], ts[k], cs[k + 1]);
  }

  /** In any run of either loop, every tick goes the way the settings and the readings so far say. */
  lemma ModeExactlyWhen(hypot: Hypot, cs: seq<Common>, ts: seq<Tick>, k: nat)
    requires IsLoopRun(hypot, cs, ts) && k < |ts|
    ensures ModeOf(cs[k], ts[k].input) == ModeBy(cs[0].config, ts, k)
  {
    FaultedIsFaulty(hypot, cs, ts, k + 1);
    NextMonitor(hypot, cs, ts, k);
  }

  // --------------------------------------------------------------------------
  // What the sensor part of a tick reports
  // --------------------------------------------------------------------------

  /** How many readings at the end of a history succeeded. */
  function OkRun(h: seq<Reading>): nat {
    if h == [] || !h[|h| - 1].ok then 0 else 1 + OkRun(h[..|h| - 1])
  }

  /** After tick k the sensor is trusted, with enough successful readings in a row. */
  ghost predicate Healthy(c: Config, ts: seq<Tick>, k: nat)
    requires k < |ts|
  {
    !Faulty(c, Seen(ts, k + 1)) && OkRun(Seen(ts, k + 1)) >= c.recoverAfterGood
  }

  /** One of the first k ticks has found the sensor healthy. */
  ghost predicate FoundHealthy(c: Config, ts: seq<Tick>, k: nat)
    requires k <= |ts|
  {
    exists j :: 0 <= j < k && Healthy(c, ts, j)
  }

  ghost function SensorCalls<R>(c: Config, ts: seq<Tick>, k: nat): seq<Effect<R>>
    requires k < |ts|
  {
    var (before, after) := (Seen(ts, k), Seen(ts, k + 1));
    (if Faulty(c, after) != Faulty(c, before)
     then [FaultChanged(Faulty(c, after), FaultAfter(c, after), FaultsSeen(c, after))] else [])
    + if Healthy(c, ts, k) && !FoundHealthy(c, ts, k) then [ObservedHealthy] else []
  }

  lemma SensorStepIn(hypot: Hypot, c: Common, t: Tick, next: Common)
    requires CommonFollows(hypot, c, t, next)
    ensures next.wasFaulted == Faulted(next.monitor)
    ensures next.goodReads == if t.input.stick.readOk then c.goodReads + 1 else 0
    ensures next.observed <==> c.observed || (!Faulted(next.monitor) && next.goodReads >= c.config.recoverAfterGood)
  {
  }

  lemma OkRunStep(ts: seq<Tick>, k: nat)
    requires k < |ts|
    ensures OkRun(Seen(ts, k + 1)) == if ts[k].input.stick.readOk then OkRun(Seen(ts, k)) + 1 else 0
  {
    ReadingsStep(ts, k + 1);
    assert Seen(ts, k + 1)[..|Seen(ts, k + 1)| - 1] == Seen(ts, k);
  }

  lemma {:induction false} CountsGoodReads(hypot: Hypot, cs: seq<Common>, ts: seq<Tick>, k: nat)
    requires IsLoopRun(hypot, cs, ts) && k <= |ts|
    ensures cs[k].goodReads == OkRun(Seen(ts, k))
  {
    if k > 0 {
      CountsGoodReads(hypot, cs, ts, k - 1);
      assert CommonFollows(hypot, cs[k - 1], ts[k - 1], cs[k - 1 + 1]);
      SensorStepIn(hypot, cs[k - 1], ts[k - 1], cs[k]);
      OkRunStep(ts, k - 1);
    }
  }

  lemma StepObserves(hypot: Hypot, cs: seq<Common>, ts: seq<Tick>, k: nat)
    requires IsLoopRun(hypot, cs, ts) && k < |ts|
    ensures cs[k + 1].wasFaulted <==> Faulty(cs[0].config, Seen(ts, k + 1))
    ensures cs[k + 1].observed <==> cs[k].observed || Healthy(cs[0].config, ts, k)
  {
    CountsGoodReads(hypot, cs, ts, k + 1);
    FaultedIsFaulty(hypot, cs, ts, k);
    FaultedIsFaulty(hypot, cs, ts, k + 1);
    assert CommonFollows(hypot, cs[k], ts[k], cs[k + 1]);
    SensorStepIn(hypot, cs[k], ts[k], cs[k + 1]);
  }

  lemma FoundStep(c: Config, ts: seq<Tick>, k: nat)
    requires k < |ts|
    ensures FoundHealthy(c, ts, k + 1) <==> FoundHealthy(c, ts, k) || Healthy(c, ts, k)
  {
  }

  lemma {:induction false} SensorTallies(hypot: Hypot, cs: seq<Common>, ts: seq<Tick>, k: nat)
    requires IsLoopRun(hypot, cs, ts) && k <= |ts|
    ensures cs[k].wasFaulted <==> Faulty(cs[0].config, Seen(ts, k))
    ensures cs[k].observed <==> FoundHealthy(cs[0].config, ts, k)
  {
    if k > 0 {
      SensorTallies(hypot, cs, ts, k - 1);
      StepObserves(hypot, cs, ts, k - 1);
      FoundStep(cs[0].config, ts, k - 1);
    } else {
      FaultedIsFaulty(hypot, cs, ts, 0);
    }
  }

  lemma SensorEffectsSay<R>(c: Common, t: Tick, hypot: Hypot, next: Common)
    requires CommonFollows(hypot, c, t, next)
    ensures SensorEffects<R>(c, t.input.stick) ==
            (if next.wasFaulted != c.wasFaulted
             then [FaultChanged(next.wasFaulted, next.monitor.fault, next.monitor.faultCount)] else [])
            + if next.observed != c.observed then [ObservedHealthy] else []
  {
  }

  /** A change of the fault is reported when it happens, with the fault in effect and how many there have been;
      and the sensor's health is reported once, on the first tick that finds it. */
  lemma SensorCallsOfRun<R>(hypot: Hypot, cs: seq<Common>, ts: seq<Tick>, k: nat)
    requires IsLoopRun(hypot, cs, ts) && k < |ts|
    ensures SensorEffects<R>(cs[k], ts[k].input.stick) == SensorCalls<R>(cs[0].config, ts, k)
  {
    SensorTallies(hypot, cs, ts, k);
    SensorTallies(hypot, cs, ts, k + 1);
    StepObserves(hypot, cs, ts, k);
    FaultedIsFaulty(hypot, cs, ts, k + 1);
    assert CommonFollows(hypot, cs[k], ts[k], cs[k + 1]);
    SensorEffectsSay<R>(cs[k], ts[k], hypot, cs[k + 1]);
  }

  // --------------------------------------------------------------------------
  // The calibration a tick goes on with
  // --------------------------------------------------------------------------

  /** A center moved a fiftieth of the way to this raw reading, on both axes. */
  function Moved(c: Center, s: Stick): Center {
    c.(x := c.x + (s.rawX - c.x) / 50.0, y := c.y + (s.rawY - c.y) / 50.0)
  }

  /** The center and the range after tick k: a successful sweep's, or corrected and with the trim the store
      answered, or as they were. */
  ghost function CalibrationAfter(hypot: Hypot, cs: seq<Common>, ts: seq<Tick>, k: nat): (Center, Range)
    requires k < |ts| && |cs| == |ts| + 1
  {
    var (mode, a) := (ModeBy(cs[0].config, ts, k), ts[k].answers);
    if mode == Recalibrating && a.sweep.Some? then a.sweep.value
    else if DriftDwell.ShouldNudge(DriftEvents(hypot, cs, ts), k)
    then (Moved(cs[k].center, ts[k].input.stick).(offsetX := a.offsetX, offsetY := a.offsetY), cs[k].range)
    else (cs[k].center, cs[k].range)
  }

  lemma CalibrationStep(hypot: Hypot, c: Common, t: Tick, next: Common)
    requires CommonFollows(hypot, c, t, next)
    ensures
      var (mode, a) := (ModeOf(c, t.input), t.answers);
      (next.center, next.range) ==
        if mode == Recalibrating && a.sweep.Some? then a.sweep.value
        else if NudgedBy(c.drift, DriftEvent(hypot, c, t.input))
        then (Moved(c.center, t.input.stick).(offsetX := a.offsetX, offsetY := a.offsetY), c.range)
        else (c.center, c.range)
  {
  }

  /** The loop corrects its drift with tick k exactly where the rule of rest and interval says. */
  lemma NudgedByRule(hypot: Hypot, cs: seq<Common>, ts: seq<Tick>, first: int, last: int, k: nat)
    requires IsLoopRun(hypot, cs, ts) && Clocked(ts, first, last) && k < |ts|
    ensures NudgedBy(cs[k].drift, DriftEvent(hypot, cs[k], ts[k].input)) <==>
            DriftDwell.ShouldNudge(DriftEvents(hypot, cs, ts), k)
  {
    CorrectsExactlyWhen(hypot, cs, ts, first, last, k);
    assert CommonFollows(hypot, cs[k], ts[k], cs[k + 1]);
    DriftTick(hypot, cs[k], ts[k], cs[k + 1]);
  }

  /** In any run of either loop, the calibration changes exactly by successful sweeps and due corrections. */
  lemma CalibrationFollows(hypot: Hypot, cs: seq<Common>, ts: seq<Tick>, first: int, last: int, k: nat)
    requires IsLoopRun(hypot, cs, ts) && Clocked(ts, first, last) && k < |ts|
    ensures (cs[k + 1].center, cs[k + 1].range) == CalibrationAfter(hypot, cs, ts, k)
  {
    ModeExactlyWhen(hypot, cs, ts, k);
    NudgedByRule(hypot, cs, ts, first, last, k);
    assert CommonFollows(hypot, cs[k], ts[k], cs[k + 1]);
    CalibrationStep(hypot, cs[k], ts[k], cs[k + 1]);
  }

  // --------------------------------------------------------------------------
  // All the calls of a tick
  // --------------------------------------------------------------------------

  /** How many corrections of the run there have been, with tick k. */
  function Corrections(hypot: Hypot, cs: seq<Common>, ts: seq<Tick>, k: nat): nat
    requires k < |ts| && |cs| == |ts| + 1
  {
    |NudgeTimes(DriftEvents(hypot, cs, ts)[..k + 1])|
  }

  /** A correction is handed to the store, and every twentieth is saved. */
  function DriftCalls<R>(hypot: Hypot, cs: seq<Common>, ts: seq<Tick>, k: nat): seq<Effect<R>>
    requires k < |ts| && |cs| == |ts| + 1
  {
    if !DriftDwell.ShouldNudge(DriftEvents(hypot, cs, ts), k) then []
    else
      [ApplyDrift(Moved(cs[k].center, ts[k].input.stick), cs[k].range)]
      + if Corrections(hypot, cs, ts, k) % 20 == 0 then [SaveToFlash] else []
  }

  /** The calls of tick k, in order: what it says of the sensor; then its report and its correction, or a neutral
      report, or a neutral one on either side of a sweep. */
  ghost function Calls<R>(hypot: Hypot, cs: seq<Common>, ts: seq<Tick>, k: nat, report: R, neutral: R): seq<Effect<R>>
    requires k < |ts| && |cs| == |ts| + 1
  {
    SensorCalls<R>(cs[0].config, ts, k)
    + match ModeBy(cs[0].config, ts, k)
      case Recalibrating => [Send(neutral), RunSweep, Send(neutral)]
      case Running => [Send(report)] + DriftCalls<R>(hypot, cs, ts, k)
      case _ => [Send(neutral)]
  }

  lemma DriftEffectsSay<R>(hypot: Hypot, c: Common, i: Input)
    requires ModeOf(c, i) == Running
    ensures DriftEffects<R>(SensorStep(c, i.stick), i, hypot(i.stick.x, i.stick.y)) ==
            if NudgedBy(c.drift, DriftEvent(hypot, c, i))
            then [ApplyDrift(Moved(c.center, i.stick), c.range)]
                 + if (c.driftNudges + 1) % SAVE_EVERY == 0 then [SaveToFlash] else []
            else []
  {
  }

  lemma DriftCallsOfRun<R>(hypot: Hypot, cs: seq<Common>, ts: seq<Tick>, first: int, last: int, k: nat)
    requires IsLoopRun(hypot, cs, ts) && Clocked(ts, first, last) && k < |ts|
    requires ModeOf(cs[k], ts[k].input) == Running
    ensures DriftEffects<R>(SensorStep(cs[k], ts[k].input.stick), ts[k].input,
                            hypot(ts[k].input.stick.x, ts[k].input.stick.y)) == DriftCalls<R>(hypot, cs, ts, k)
  {
    DriftEffectsSay<R>(hypot, cs[k], ts[k].input);
    NudgedByRule(hypot, cs, ts, first, last, k);
    DriftFollowsRun(hypot, cs, ts, k);
    EventStep(hypot, cs, ts, k + 1);
  }

  /** In any run of the gamepad loop a tick makes exactly these calls, in this order. */
  lemma XacCallsOfRun(hypot: Hypot, cs: seq<Common>, ts: seq<Tick>, first: int, last: int, k: nat)
    requires IsLoopRun(hypot, cs, ts) && Clocked(ts, first, last) && k < |ts|
    ensures XacEffects(hypot, cs[k], ts[k].input, ts[k].answers) ==
            Calls(hypot, cs, ts, k, XacReport(ts[k].input.stick.x, ts[k].input.stick.y), NEUTRAL_XAC)
  {
    SensorCallsOfRun<XacReport>(hypot, cs, ts, k);
    ModeExactlyWhen(hypot, cs, ts, k);
    if ModeOf(cs[k], ts[k].input) == Running {
      DriftCallsOfRun<XacReport>(hypot, cs, ts, first, last, k);
    }
  }

  lemma DetectKeepsCommon(hypot: Hypot, m: Mouse, i: Input)
    ensures CountScroll(DetectStep(hypot, SensorEdges(m, i), i)).common == SensorStep(m.common, i.stick)
  {
  }

  /** And so in any run of the mouse loop, with the report of the nudge it holds. */
  lemma MouseCallsOfRun(hypot: Hypot, ms: seq<Mouse>, ts: seq<Tick>, first: int, last: int, k: nat)
    requires NudgeRuns.IsRun(hypot, ms, ts) && Clocked(ts, first, last) && k < |ts|
    ensures MouseEffects(hypot, ms[k], ts[k].input, ts[k].answers) ==
            Calls(hypot, CommonsOf(ms), ts, k, RunningReport(hypot, ms[k], ts[k]), NEUTRAL_MOUSE)
  {
    var cs := CommonsOf(ms);
    MouseRunIsLoopRun(hypot, ms, ts);
    SensorCallsOfRun<MouseReport>(hypot, cs, ts, k);
    ModeExactlyWhen(hypot, cs, ts, k);
    if ModeOf(cs[k], ts[k].input) == Running {
      DetectKeepsCommon(hypot, ms[k], ts[k].input);
      DriftCallsOfRun<MouseReport>(hypot, cs, ts, first, last, k);
    }
  }
}
