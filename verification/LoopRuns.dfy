/**
 Whole runs of either control loop. Both carry the same common state and change it the same way, so
 what follows from it holds for the mouse and the gamepad alike.
 */
module LoopRuns {
  import opened Bytes
  import opened Options
  import opened Calibration
  import opened DriftModel
  import opened SensorFaultModel
  import opened ControlModel
  import DriftDwell

  datatype Tick = Tick(input: Input, answers: Answers)

  type Hypot = (real, real) -> real

  // --------------------------------------------------------------------------
  // Neutral reports
  // --------------------------------------------------------------------------

  /** Every report among these effects is this one, and there is one. */
  predicate OnlySends<R(==)>(effects: seq<Effect<R>>, report: R) {
    && (exists k :: 0 <= k < |effects| && effects[k] == Send(report))
    && forall k :: 0 <= k < |effects| && effects[k].Send? ==> effects[k].report == report
  }

  lemma OnlySendsAfter<R>(quiet: seq<Effect<R>>, effects: seq<Effect<R>>, report: R)
    requires forall k :: 0 <= k < |quiet| ==> !quiet[k].Send?
    requires OnlySends(effects, report)
    ensures OnlySends(quiet + effects, report)
  {
    var k :| 0 <= k < |effects| && effects[k] == Send(report);
    assert (quiet + effects)[|quiet| + k] == Send(report);
  }

  /** A held tick, a tick of a faulty sensor and a tick that runs a sweep say the stick is at rest. */
  lemma MouseNeutralUnlessRunning(hypot: Hypot, m: Mouse, i: Input, a: Answers)
    requires ModeOf(m.common, i) != Running
    ensures OnlySends(MouseEffects(hypot, m, i, a), NEUTRAL_MOUSE)
  {
    var quiet: seq<Effect<MouseReport>> := SensorEffects(m.common, i.stick);
    var one: seq<Effect<MouseReport>> := [Send(NEUTRAL_MOUSE)];
    var two: seq<Effect<MouseReport>> := [Send(NEUTRAL_MOUSE), RunSweep, Send(NEUTRAL_MOUSE)];
    assert one[0] == Send(NEUTRAL_MOUSE) && two[0] == Send(NEUTRAL_MOUSE);
    OnlySendsAfter(quiet, if ModeOf(m.common, i) == Recalibrating then two else one, NEUTRAL_MOUSE);
  }

  lemma XacNeutralUnlessRunning(hypot: Hypot, c: Common, i: Input, a: Answers)
    requires ModeOf(c, i) != Running
    ensures OnlySends(XacEffects(hypot, c, i, a), NEUTRAL_XAC)
  {
    var quiet: seq<Effect<XacReport>> := SensorEffects(c, i.stick);
    var one: seq<Effect<XacReport>> := [Send(NEUTRAL_XAC)];
    var two: seq<Effect<XacReport>> := [Send(NEUTRAL_XAC), RunSweep, Send(NEUTRAL_XAC)];
    assert one[0] == Send(NEUTRAL_XAC) && two[0] == Send(NEUTRAL_XAC);
    OnlySendsAfter(quiet, if ModeOf(c, i) == Recalibrating then two else one, NEUTRAL_XAC);
  }

  /** The gamepad loop passes the stick through. */
  lemma XacRunningReportsStick(hypot: Hypot, c: Common, i: Input, a: Answers)
    requires ModeOf(c, i) == Running
    ensures OnlySends(XacEffects(hypot, c, i, a), XacReport(i.stick.x, i.stick.y))
  {
    var own: seq<Effect<XacReport>> := [Send(XacReport(i.stick.x, i.stick.y))];
    var drift: seq<Effect<XacReport>> :=
      DriftEffects(SensorStep(c, i.stick), i, hypot(i.stick.x, i.stick.y));
    assert (own + drift)[0] == own[0];
    OnlySendsAfter(SensorEffects(c, i.stick), own + drift, XacReport(i.stick.x, i.stick.y));
  }

  // --------------------------------------------------------------------------
  // Runs
  // --------------------------------------------------------------------------

  ghost predicate CommonFollows(hypot: Hypot, c: Common, t: Tick, next: Common) {
    next == CommonTick(hypot, c, t.input, t.answers)
  }

  /** The common state goes through these values, from power-on, one tick after the other. A run of
      the gamepad loop is such a run; a run of the mouse loop has one inside. */
  ghost predicate IsLoopRun(hypot: Hypot, cs: seq<Common>, ts: seq<Tick>) {
    && |cs| == |ts| + 1
    && cs[0].monitor == SensorFaultModel.FRESH && !cs[0].wasFaulted
    && cs[0].goodReads == 0 && !cs[0].observed
    && cs[0].drift == AT_REST && cs[0].driftNudges == 0
    && forall k :: 0 <= k < |ts| ==> CommonFollows(hypot, cs[k], ts[k], cs[k + 1])
  }

  /** The mouse loop treats the common state just as the gamepad loop does. */
  lemma MouseSharesCommon(hypot: Hypot, m: Mouse, i: Input, a: Answers)
    ensures MouseTick(hypot, m, i, a).common == CommonTick(hypot, m.common, i, a)
  {
  }

  // --------------------------------------------------------------------------
  // The sensor
  // --------------------------------------------------------------------------

  /** The readings a run has shown the sensor monitor. */
  function Readings(ts: seq<Tick>): seq<Reading> {
    if ts == [] then [] else Readings(ts[..|ts| - 1]) + [ReadingOf(ts[|ts| - 1].input.stick)]
  }

  lemma MonitorStep(hypot: Hypot, c: Common, t: Tick, next: Common)
    requires CommonFollows(hypot, c, t, next)
    ensures next.config == c.config
    ensures next.monitor == Observe(c.config, c.monitor, ReadingOf(t.input.stick))
    ensures !t.input.recalibrate && Faulted(next.monitor) ==> ModeOf(c, t.input) != Running
  {
  }

  lemma ReadingsStep(ts: seq<Tick>, k: nat)
    requires 0 < k <= |ts|
    ensures Readings(ts[..k]) == Readings(ts[..k - 1]) + [ReadingOf(ts[k - 1].input.stick)]
  {
    assert ts[..k][..k - 1] == ts[..k - 1];
  }

  /** The monitor sees every tick's reading, whatever else the tick does. */
  lemma {:induction false} MonitorSeesEveryTick(hypot: Hypot, cs: seq<Common>, ts: seq<Tick>, k: nat)
    requires IsLoopRun(hypot, cs, ts) && k <= |ts|
    ensures cs[k].config == cs[0].config
    ensures cs[k].monitor == ObserveAll(cs[0].config, Readings(ts[..k]))
  {
    if k > 0 {
      MonitorSeesEveryTick(hypot, cs, ts, k - 1);
      assert CommonFollows(hypot, cs[k - 1], ts[k - 1], cs[k - 1 + 1]);
      MonitorStep(hypot, cs[k - 1], ts[k - 1], cs[k]);
      ReadingsStep(ts, k);
      ObserveAllAppend(cs[0].config, Readings(ts[..k - 1]), ReadingOf(ts[k - 1].input.stick));
    }
  }

  /** From the reading that trips the monitor until the history recovers, no tick runs normally. */
  lemma NotRunningWhileFaulty(hypot: Hypot, cs: seq<Common>, ts: seq<Tick>, k: nat, i: nat, fault: Fault)
    requires IsLoopRun(hypot, cs, ts) && k < |ts| && !ts[k].input.recalibrate
    requires fault != NoFault && Holds(cs[0].config, Readings(ts[..k + 1]), i, fault)
    ensures ModeOf(cs[k], ts[k].input) != Running
  {
    MonitorSeesEveryTick(hypot, cs, ts, k + 1);
    FaultedExactlyWhen(cs[0].config, Readings(ts[..k + 1]));
    assert CommonFollows(hypot, cs[k], ts[k], cs[k + 1]);
    MonitorStep(hypot, cs[k], ts[k], cs[k + 1]);
  }

  /** Gamepad: from the reading that trips the monitor until the history recovers, every tick that
      runs no sweep reports a stick at rest. */
  lemma XacNeutralWhileFaulty(hypot: Hypot, cs: seq<Common>, ts: seq<Tick>, k: nat, i: nat, fault: Fault)
    requires IsLoopRun(hypot, cs, ts) && k < |ts| && !ts[k].input.recalibrate
    requires fault != NoFault && Holds(cs[0].config, Readings(ts[..k + 1]), i, fault)
    ensures OnlySends(XacEffects(hypot, cs[k], ts[k].input, ts[k].answers), NEUTRAL_XAC)
  {
    NotRunningWhileFaulty(hypot, cs, ts, k, i, fault);
    XacNeutralUnlessRunning(hypot, cs[k], ts[k].input, ts[k].answers);
  }

  // --------------------------------------------------------------------------
  // Drift
  // --------------------------------------------------------------------------

  /** What a tick does to the drift compensator. */
  function DriftEvent(hypot: Hypot, c: Common, i: Input): Event {
    match ModeOf(c, i)
    case Running => Sample(hypot(i.stick.x, i.stick.y), i.now)
    case Recalibrating => Restart
    case _ => Skip
  }

  function NudgeCount(before: Drift, e: Event): nat {
    if NudgedBy(before, e) then 1 else 0
  }

  lemma DriftTick(hypot: Hypot, c: Common, t: Tick, next: Common)
    requires CommonFollows(hypot, c, t, next)
    ensures
      var e := DriftEvent(hypot, c, t.input);
      && next.drift == Next(c.drift, e)
      && next.driftNudges == c.driftNudges + NudgeCount(c.drift, e)
  {
  }

  function DriftEvents(hypot: Hypot, cs: seq<Common>, ts: seq<Tick>): seq<Event>
    requires |cs| == |ts| + 1
  {
    seq(|ts|, k requires 0 <= k < |ts| => DriftEvent(hypot, cs[k], ts[k].input))
  }

  lemma EventStep(hypot: Hypot, cs: seq<Common>, ts: seq<Tick>, k: nat)
    requires |cs| == |ts| + 1 && 0 < k <= |ts|
    ensures
      var es := DriftEvents(hypot, cs, ts);
      var e := DriftEvent(hypot, cs[k - 1], ts[k - 1].input);
      && After(es[..k]) == Next(After(es[..k - 1]), e)
      && NudgeTimes(es[..k]) == NudgeTimes(es[..k - 1]) + if NudgedBy(After(es[..k - 1]), e) then [e.now] else []
  {
    var es := DriftEvents(hypot, cs, ts);
    assert es[..k][..k - 1] == es[..k - 1];
    assert es[..k][k - 1] == DriftEvent(hypot, cs[k - 1], ts[k - 1].input);
  }

  /** Drift state and nudge counter of a whole run are those of its drift events. */
  lemma {:induction false} DriftFollowsRun(hypot: Hypot, cs: seq<Common>, ts: seq<Tick>, k: nat)
    requires IsLoopRun(hypot, cs, ts) && k <= |ts|
    ensures
      var es := DriftEvents(hypot, cs, ts)[..k];
      cs[k].drift == After(es) && cs[k].driftNudges == |NudgeTimes(es)|
  {
    if k > 0 {
      DriftFollowsRun(hypot, cs, ts, k - 1);
      assert CommonFollows(hypot, cs[k - 1], ts[k - 1], cs[k - 1 + 1]);
      DriftTick(hypot, cs[k - 1], ts[k - 1], cs[k]);
      EventStep(hypot, cs, ts, k);
    }
  }

  /** In any run of either loop, a tick corrects the center exactly where the rule of rest and interval says,
      going by what the ticks before it showed the compensator. */
  lemma CorrectsExactlyWhen(hypot: Hypot, cs: seq<Common>, ts: seq<Tick>, first: int, last: int, k: nat)
    requires IsLoopRun(hypot, cs, ts) && Clocked(ts, first, last) && k < |ts|
    ensures cs[k + 1].driftNudges ==
            cs[k].driftNudges + if DriftDwell.ShouldNudge(DriftEvents(hypot, cs, ts), k) then 1 else 0
  {
    var es := DriftEvents(hypot, cs, ts);
    DriftFollowsRun(hypot, cs, ts, k);
    EventTimes(hypot, cs, ts);
    assert CommonFollows(hypot, cs[k], ts[k], cs[k + 1]);
    DriftTick(hypot, cs[k], ts[k], cs[k + 1]);
    assert Ordered(es);
    DriftDwell.NudgesExactlyWhen(es, k);
  }

  /** The clock of a run never goes back and stays within this span. */
  predicate Clocked(ts: seq<Tick>, first: int, last: int) {
    && first <= last
    && (forall k :: 0 <= k < |ts| ==> first <= ts[k].input.now <= last)
    && forall j, k :: 0 <= j < k < |ts| ==> ts[j].input.now <= ts[k].input.now
  }

  lemma EventTimes(hypot: Hypot, cs: seq<Common>, ts: seq<Tick>)
    requires |cs| == |ts| + 1
    ensures
      var es := DriftEvents(hypot, cs, ts);
      forall k :: 0 <= k < |ts| && es[k].Sample? ==> es[k].now == ts[k].input.now
  {
  }

  // --------------------------------------------------------------------------
  // Saves
  // --------------------------------------------------------------------------

  predicate Saves<R>(effects: seq<Effect<R>>) {
    exists k :: 0 <= k < |effects| && effects[k].SaveToFlash?
  }

  /** The tick nudges the center for the twentieth time, or the fortieth, and so on. */
  predicate SaveDue(hypot: Hypot, c: Common, i: Input) {
    NudgedBy(c.drift, DriftEvent(hypot, c, i)) && (c.driftNudges + 1) % SAVE_EVERY == 0
  }

  /** Effects that end in those of a drift step save exactly when the drift step does. */
  lemma SavesOf<R>(sensor: seq<Effect<R>>, own: seq<Effect<R>>, drift: seq<Effect<R>>)
    requires forall k :: 0 <= k < |sensor| ==> !sensor[k].SaveToFlash?
    requires forall k :: 0 <= k < |own| ==> !own[k].SaveToFlash?
    ensures Saves(sensor + (own + drift)) <==> Saves(drift)
  {
    if Saves(drift) {
      var k :| 0 <= k < |drift| && drift[k].SaveToFlash?;
      assert (sensor + (own + drift))[|sensor| + |own| + k] == drift[k];
    }
  }

  lemma DriftSaves<R>(c: Common, i: Input, mag: real)
    ensures
      var effects: seq<Effect<R>> := DriftEffects(c, i, mag);
      Saves(effects) <==> DriftNudges(c, mag, i.now) && (c.driftNudges + 1) % SAVE_EVERY == 0
  {
    var effects: seq<Effect<R>> := DriftEffects(c, i, mag);
    if DriftNudges(c, mag, i.now) && (c.driftNudges + 1) % SAVE_EVERY == 0 {
      assert effects[1].SaveToFlash?;
    }
  }

  lemma MouseSavesWhenDue(hypot: Hypot, m: Mouse, i: Input, a: Answers)
    ensures Saves(MouseEffects(hypot, m, i, a)) <==> SaveDue(hypot, m.common, i)
  {
    var sensor: seq<Effect<MouseReport>> := SensorEffects(m.common, i.stick);
    if ModeOf(m.common, i) == Running {
      var next := CountScroll(DetectStep(hypot, SensorEdges(m, i), i));
      var own: seq<Effect<MouseReport>> := [Send(ReportOf(next, i))];
      SavesOf(sensor, own, DriftEffects(next.common, i, hypot(i.stick.x, i.stick.y)));
      DriftSaves<MouseReport>(next.common, i, hypot(i.stick.x, i.stick.y));
    }
  }

  lemma XacSavesWhenDue(hypot: Hypot, c: Common, i: Input, a: Answers)
    ensures Saves(XacEffects(hypot, c, i, a)) <==> SaveDue(hypot, c, i)
  {
    var sensor: seq<Effect<XacReport>> := SensorEffects(c, i.stick);
    if ModeOf(c, i) == Running {
      var own: seq<Effect<XacReport>> := [Send(XacReport(i.stick.x, i.stick.y))];
      SavesOf(sensor, own, DriftEffects(SensorStep(c, i.stick), i, hypot(i.stick.x, i.stick.y)));
      DriftSaves<XacReport>(SensorStep(c, i.stick), i, hypot(i.stick.x, i.stick.y));
    }
  }

  function CountTrue(flags: seq<bool>): nat {
    if flags == [] then 0 else CountTrue(flags[..|flags| - 1]) + if flags[|flags| - 1] then 1 else 0
  }

  /** Which ticks of a run are due to save to flash. */
  function DueFlags(hypot: Hypot, cs: seq<Common>, ts: seq<Tick>): seq<bool>
    requires |cs| == |ts| + 1
  {
    seq(|ts|, k requires 0 <= k < |ts| => SaveDue(hypot, cs[k], ts[k].input))
  }

  /** Which ticks of a gamepad run save to flash. */
  function XacSaveFlags(hypot: Hypot, cs: seq<Common>, ts: seq<Tick>): seq<bool>
    requires |cs| == |ts| + 1
  {
    seq(|ts|, k requires 0 <= k < |ts| => Saves(XacEffects(hypot, cs[k], ts[k].input, ts[k].answers)))
  }

  lemma DueStep(hypot: Hypot, cs: seq<Common>, ts: seq<Tick>, k: nat)
    requires |cs| == |ts| + 1 && 0 < k <= |ts|
    ensures CountTrue(DueFlags(hypot, cs, ts)[..k]) ==
            CountTrue(DueFlags(hypot, cs, ts)[..k - 1]) + if SaveDue(hypot, cs[k - 1], ts[k - 1].input) then 1 else 0
  {
    var flags := DueFlags(hypot, cs, ts);
    assert flags[..k][..k - 1] == flags[..k - 1];
    assert flags[..k][k - 1] == SaveDue(hypot, cs[k - 1], ts[k - 1].input);
  }

  lemma SavesStep(n: nat, due: bool)
    requires due <==> (n + 1) % SAVE_EVERY == 0
    ensures SavesBy(n + 1) == SavesBy(n) + if due then 1 else 0
  {
  }

  /** One save is due for every twentieth nudge counted since power-on. */
  lemma {:induction false} DueCounts(hypot: Hypot, cs: seq<Common>, ts: seq<Tick>, k: nat)
    requires IsLoopRun(hypot, cs, ts) && k <= |ts|
    ensures CountTrue(DueFlags(hypot, cs, ts)[..k]) == SavesBy(|NudgeTimes(DriftEvents(hypot, cs, ts)[..k])|)
  {
    if k > 0 {
      DueCounts(hypot, cs, ts, k - 1);
      DriftFollowsRun(hypot, cs, ts, k - 1);
      EventStep(hypot, cs, ts, k);
      DueStep(hypot, cs, ts, k);
      var c, i := cs[k - 1], ts[k - 1].input;
      if NudgedBy(c.drift, DriftEvent(hypot, c, i)) {
        SavesStep(c.driftNudges, SaveDue(hypot, c, i));
      }
    }
  }

  /** However long the stick runs and however often it is recalibrated, few saves are due. */
  lemma DueAreFew(hypot: Hypot, cs: seq<Common>, ts: seq<Tick>, first: int, last: int)
    requires IsLoopRun(hypot, cs, ts) && Clocked(ts, first, last)
    ensures CountTrue(DueFlags(hypot, cs, ts)) <= ((last - first) / MIN_NUDGE_INTERVAL + 1) / SAVE_EVERY
  {
    var es, flags := DriftEvents(hypot, cs, ts), DueFlags(hypot, cs, ts);
    DueCounts(hypot, cs, ts, |ts|);
    assert es[..|ts|] == es && flags[..|ts|] == flags;
    EventTimes(hypot, cs, ts);
    forall e | e in es && e.Sample? ensures first <= e.now <= last {
      var k :| 0 <= k < |es| && es[k] == e;
      assert e.now == ts[k].input.now;
    }
    assert Ordered(es);
    SavesBounded(es, first, last);
  }

  /** Gamepad: drift correction asks for few saves. */
  lemma XacDriftSavesAreFew(hypot: Hypot, cs: seq<Common>, ts: seq<Tick>, first: int, last: int)
    requires IsLoopRun(hypot, cs, ts) && Clocked(ts, first, last)
    ensures CountTrue(XacSaveFlags(hypot, cs, ts)) <= ((last - first) / MIN_NUDGE_INTERVAL + 1) / SAVE_EVERY
  {
    forall k | 0 <= k < |ts| ensures XacSaveFlags(hypot, cs, ts)[k] == DueFlags(hypot, cs, ts)[k] {
      XacSavesWhenDue(hypot, cs[k], ts[k].input, ts[k].answers);
    }
    assert XacSaveFlags(hypot, cs, ts) == DueFlags(hypot, cs, ts);
    DueAreFew(hypot, cs, ts, first, last);
  }

  // --------------------------------------------------------------------------
  // Where the center goes
  // --------------------------------------------------------------------------

  lemma CenterStep(hypot: Hypot, c: Common, t: Tick, next: Common)
    requires CommonFollows(hypot, c, t, next) && ModeOf(c, t.input) != Recalibrating
    ensures
      if next.driftNudges == c.driftNudges then next.center == c.center
      else && next.driftNudges == c.driftNudges + 1
           && next.center.x == Blend(c.center.x, t.input.stick.rawX)
           && next.center.y == Blend(c.center.y, t.input.stick.rawY)
           && next.center.noise == c.center.noise && next.center.deadzone == c.center.deadzone
  {
  }

  /** No sweep runs in the first k ticks, and the raw reading stays the same. */
  predicate SteadyReading(cs: seq<Common>, ts: seq<Tick>, k: nat, rawX: real, rawY: real)
    requires k <= |ts| < |cs|
  {
    forall j :: 0 <= j < k ==>
      && ModeOf(cs[j], ts[j].input) != Recalibrating
      && ts[j].input.stick.rawX == rawX && ts[j].input.stick.rawY == rawY
  }

  lemma {:induction false} CenterIsNudged(hypot: Hypot, cs: seq<Common>, ts: seq<Tick>, k: nat, rawX: real, rawY: real)
    requires IsLoopRun(hypot, cs, ts) && k <= |ts| && SteadyReading(cs, ts, k, rawX, rawY)
    ensures cs[k].center.x == Nudged(cs[0].center.x, rawX, cs[k].driftNudges)
    ensures cs[k].center.y == Nudged(cs[0].center.y, rawY, cs[k].driftNudges)
  {
    if k > 0 {
      CenterIsNudged(hypot, cs, ts, k - 1, rawX, rawY);
      assert CommonFollows(hypot, cs[k - 1], ts[k - 1], cs[k - 1 + 1]);
      CenterStep(hypot, cs[k - 1], ts[k - 1], cs[k]);
    }
  }

  /** In either loop, while the raw reading is constant and no sweep runs, the center has closed the gap
      on both axes by exactly as many nudges as were counted. */
  lemma CenterFollowsReading(hypot: Hypot, cs: seq<Common>, ts: seq<Tick>, k: nat, rawX: real, rawY: real)
    requires IsLoopRun(hypot, cs, ts) && k <= |ts| && SteadyReading(cs, ts, k, rawX, rawY)
    ensures
      var (n, c) := (cs[k].driftNudges, cs[0].center);
      && rawX - cs[k].center.x == Pow(1.0 - BLEND_RATE, n) * (rawX - c.x)
      && rawY - cs[k].center.y == Pow(1.0 - BLEND_RATE, n) * (rawY - c.y)
  {
    CenterIsNudged(hypot, cs, ts, k, rawX, rawY);
    GapShrinks(cs[0].center.x, rawX, cs[k].driftNudges);
    GapShrinks(cs[0].center.y, rawY, cs[k].driftNudges);
  }
}
