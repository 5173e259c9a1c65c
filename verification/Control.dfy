/**
 The mouse and gamepad control loops: one tick as a function of the loop's state, what the
 sensor and the console say, and what the outside world answers.
 */
module ControlModel {
  import opened Bytes
  import opened Options
  import opened Calibration
  import opened DriftModel
  import opened SensorFaultModel

  const SENSITIVITY: real := 15.0
  const SCROLL_DIVIDER: nat := 5

  datatype Nudge = NoNudge | Left | Right | Forward | Back

  datatype Stick = Stick(x: real, y: real, rawX: real, rawY: real, readOk: bool, count: Option<Byte>)

  /** The nudge settings the loop reads live; the hold time is in milliseconds. */
  datatype Settings = Settings(enabled: bool, distance: real, exit: real, holdTime: int)

  datatype Input = Input(stick: Stick, now: int, recalibrate: bool, outputHold: bool, needsCalibration: bool,
                         settings: Settings)

  /** What the ports answer during a tick: the result of a sweep, the reading and the time after it,
      and the manual trim the store holds by then. */
  datatype Answers = Answers(sweep: Option<(Center, Range)>, post: Stick, doneAt: int, offsetX: real, offsetY: real)

  datatype MouseReport = MouseReport(buttons: Byte, dx: int, dy: int, wheel: int)
  datatype XacReport = XacReport(x: real, y: real)

  const NEUTRAL_MOUSE := MouseReport(0, 0, 0, 0)
  const NEUTRAL_XAC := XacReport(0.0, 0.0)

  /** Calls a tick makes to the outside world, in order. */
  datatype Effect<R> =
    | Send(report: R)
    | FaultChanged(faulted: bool, fault: Fault, faultCount: nat)
    | ObservedHealthy
    | RunSweep
    | ApplyDrift(center: Center, range: Range)
    | SaveToFlash

  datatype Common = Common(config: Config, monitor: Monitor, wasFaulted: bool, goodReads: nat, observed: bool,
                           drift: Drift, driftNudges: nat, center: Center, range: Range)

  datatype Mouse = Mouse(common: Common, nudge: Nudge, scrollPolls: nat, windowStart: int,
                         prevX: real, prevY: real, initialised: bool)

  function FreshCommon(config: Config, center: Center, range: Range): Common {
    Common(config, SensorFaultModel.FRESH, false, 0, false, AT_REST, 0, center, range)
  }

  function FreshMouse(center: Center, range: Range): Mouse {
    Mouse(FreshCommon(MOUSE_CONFIG, center, range), NoNudge, 0, 0, 0.0, 0.0, false)
  }

  predicate HoldsOutput(i: Input) {
    i.outputHold || (i.needsCalibration && !i.recalibrate)
  }

  function Abs(v: real): real {
    if v < 0.0 then -v else v
  }

  function Classify(x: real, y: real): Nudge {
    if Abs(x) >= Abs(y) then (if x >= 0.0 then Right else Left)
    else if y < 0.0 then Forward else Back
  }

  /** Truncated toward zero, then clamped to what a report can say. */
  function ToDelta(v: real): (d: int)
    ensures -127 <= d <= 127
  {
    var i := if v >= 0.0 then v.Floor else -((-v).Floor);
    if i > 127 then 127 else if i < -127 then -127 else i
  }

  /** Whole milliseconds of a duration in nanoseconds, truncated toward zero. */
  function Millis(d: int): int {
    if d >= 0 then d / MILLISECOND else -((-d) / MILLISECOND)
  }

  // --------------------------------------------------------------------------
  // The sensor comes first on every tick
  // --------------------------------------------------------------------------

  function ReadingOf(s: Stick): Reading {
    Reading(s.readOk, s.rawX, s.rawY, s.count)
  }

  function SensorStep(c: Common, s: Stick): Common {
    var monitor := Observe(c.config, c.monitor, ReadingOf(s));
    var goodReads := if s.readOk then c.goodReads + 1 else 0;
    c.(monitor := monitor, wasFaulted := Faulted(monitor), goodReads := goodReads,
       observed := c.observed || (!Faulted(monitor) && goodReads >= c.config.recoverAfterGood))
  }

  function SensorEffects<R>(c: Common, s: Stick): seq<Effect<R>> {
    var next := SensorStep(c, s);
    (if next.wasFaulted != c.wasFaulted
     then [FaultChanged(next.wasFaulted, next.monitor.fault, next.monitor.faultCount)] else [])
    + (if next.observed != c.observed then [ObservedHealthy] else [])
  }

  // --------------------------------------------------------------------------
  // Drift and recalibration, shared by both loops
  // --------------------------------------------------------------------------

  predicate DriftNudges(c: Common, mag: real, now: int) {
    NudgesNow(StartIdle(c.drift, now), mag, now)
  }

  /** Feeds the sample to the compensator; after a nudge the store answers with its own trim. */
  function DriftStep(c: Common, i: Input, mag: real, a: Answers): Common {
    var drift := Sampled(c.drift, mag, i.now);
    if DriftNudges(c, mag, i.now) then
      c.(drift := drift, driftNudges := c.driftNudges + 1,
         center := WithOffset(c.center.(x := Blend(c.center.x, i.stick.rawX), y := Blend(c.center.y, i.stick.rawY)),
                              a.offsetX, a.offsetY))
    else c.(drift := drift)
  }

  function DriftEffects<R>(c: Common, i: Input, mag: real): seq<Effect<R>> {
    if DriftNudges(c, mag, i.now) then
      [ApplyDrift(c.center.(x := Blend(c.center.x, i.stick.rawX), y := Blend(c.center.y, i.stick.rawY)), c.range)]
      + if (c.driftNudges + 1) % SAVE_EVERY == 0 then [SaveToFlash] else []
    else []
  }

  function SweepDone(c: Common, a: Answers): Common {
    c.(drift := AT_REST,
       center := if a.sweep.Some? then a.sweep.value.0 else c.center,
       range := if a.sweep.Some? then a.sweep.value.1 else c.range)
  }

  /** Which way a tick goes. */
  datatype Mode = Held | SensorDown | Recalibrating | Running

  function ModeOf(c: Common, i: Input): Mode {
    if HoldsOutput(i) then Held
    else if i.recalibrate then Recalibrating
    else if Faulted(Observe(c.config, c.monitor, ReadingOf(i.stick))) then SensorDown
    else Running
  }

  /** What a tick of either loop does to the state both share. */
  function CommonTick(hypot: (real, real) -> real, c: Common, i: Input, a: Answers): Common {
    var next := SensorStep(c, i.stick);
    match ModeOf(c, i)
    case Held => next
    case SensorDown => next
    case Recalibrating => SweepDone(next, a)
    case Running => DriftStep(next, i, hypot(i.stick.x, i.stick.y), a)
  }

  // --------------------------------------------------------------------------
  // The mouse loop
  // --------------------------------------------------------------------------

  function Release(m: Mouse): Mouse {
    m.(nudge := NoNudge, scrollPolls := 0)
  }

  /** Measures the next nudge from this reading on. */
  function Rebase(m: Mouse, x: real, y: real, now: int): Mouse {
    m.(windowStart := now, prevX := x, prevY := y, initialised := true)
  }

  predicate WindowOver(m: Mouse, i: Input) {
    Millis(i.now - m.windowStart) >= i.settings.holdTime
  }

  /** The nudge as it stands at the end of a measurement window. */
  function Detect(hypot: (real, real) -> real, m: Mouse, i: Input): Mouse {
    var mag := hypot(i.stick.x, i.stick.y);
    if m.nudge == NoNudge then
      if i.settings.enabled && mag - hypot(m.prevX, m.prevY) >= i.settings.distance
      then m.(nudge := Classify(i.stick.x, i.stick.y), scrollPolls := 0)
      else m
    else if mag <= i.settings.exit then m.(nudge := NoNudge)
    else m
  }

  /** A nudge switched off is let go at once, and the baseline follows the stick. */
  function HonourSwitch(m: Mouse, i: Input): Mouse {
    if i.settings.enabled then m
    else Rebase(if m.nudge == NoNudge then m else Release(m), i.stick.x, i.stick.y, i.now)
  }

  function DetectStep(hypot: (real, real) -> real, m: Mouse, i: Input): Mouse {
    var start := if m.initialised then m else Rebase(m, i.stick.x, i.stick.y, i.now);
    var switched := HonourSwitch(start, i);
    if WindowOver(start, i) then Rebase(Detect(hypot, switched, i), i.stick.x, i.stick.y, i.now) else switched
  }

  function CountScroll(m: Mouse): Mouse {
    if m.nudge == Left || m.nudge == Back then m.(scrollPolls := m.scrollPolls + 1) else m
  }

  function ReportOf(m: Mouse, i: Input): MouseReport {
    match m.nudge
    case NoNudge => MouseReport(0, ToDelta(i.stick.x * SENSITIVITY), ToDelta(i.stick.y * SENSITIVITY), 0)
    case Left => MouseReport(0, 0, 0, if m.scrollPolls % SCROLL_DIVIDER == 0 then 1 else 0)
    case Back => MouseReport(0, 0, 0, if m.scrollPolls % SCROLL_DIVIDER == 0 then -1 else 0)
    case Forward => MouseReport(1, 0, 0, 0)
    case Right => MouseReport(2, 0, 0, 0)
  }

  /** The sensor step of a tick that is not held, and what its edges do to the nudge. */
  function SensorEdges(m: Mouse, i: Input): Mouse {
    var next := m.(common := SensorStep(m.common, i.stick));
    if next.common.wasFaulted == m.common.wasFaulted then next
    else if next.common.wasFaulted then Release(next)
    else Rebase(next, i.stick.x, i.stick.y, i.now)
  }

  function MouseTick(hypot: (real, real) -> real, m: Mouse, i: Input, a: Answers): Mouse {
    match ModeOf(m.common, i)
    case Held =>
      Rebase(Release(m.(common := SensorStep(m.common, i.stick))), i.stick.x, i.stick.y, i.now)
    case SensorDown => SensorEdges(m, i)
    case Recalibrating =>
      var released := Release(SensorEdges(m, i));
      Rebase(released.(common := SweepDone(released.common, a)), a.post.x, a.post.y, a.doneAt)
    case Running =>
      var next := CountScroll(DetectStep(hypot, SensorEdges(m, i), i));
      next.(common := DriftStep(next.common, i, hypot(i.stick.x, i.stick.y), a))
  }

  function MouseEffects(hypot: (real, real) -> real, m: Mouse, i: Input, a: Answers): seq<Effect<MouseReport>> {
    SensorEffects(m.common, i.stick) +
    match ModeOf(m.common, i)
    case Held => [Send(NEUTRAL_MOUSE)]
    case SensorDown => [Send(NEUTRAL_MOUSE)]
    case Recalibrating => [Send(NEUTRAL_MOUSE), RunSweep, Send(NEUTRAL_MOUSE)]
    case Running =>
      var next := CountScroll(DetectStep(hypot, SensorEdges(m, i), i));
      [Send(ReportOf(next, i))] + DriftEffects(next.common, i, hypot(i.stick.x, i.stick.y))
  }

  // --------------------------------------------------------------------------
  // The gamepad loop
  // --------------------------------------------------------------------------

  /** The gamepad loop has no state of its own. */
  function XacTick(hypot: (real, real) -> real, c: Common, i: Input, a: Answers): Common {
    CommonTick(hypot, c, i, a)
  }

  function XacEffects(hypot: (real, real) -> real, c: Common, i: Input, a: Answers): seq<Effect<XacReport>> {
    SensorEffects(c, i.stick) +
    match ModeOf(c, i)
    case Held => [Send(NEUTRAL_XAC)]
    case SensorDown => [Send(NEUTRAL_XAC)]
    case Recalibrating => [Send(NEUTRAL_XAC), RunSweep, Send(NEUTRAL_XAC)]
    case Running => [Send(XacReport(i.stick.x, i.stick.y))] + DriftEffects(SensorStep(c, i.stick), i, hypot(i.stick.x, i.stick.y))
  }
}
