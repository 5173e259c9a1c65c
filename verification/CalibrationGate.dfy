/**
 The calibration gate: the stick stays quiet until it has a usable calibration, and never moves on
 an unusable one afterwards. A run is everything between two boots.
 */
module CalibrationGateModel {
  import opened Options
  import opened Calibration
  import opened DriftModel
  import opened SensorFaultModel
  import opened ControlModel
  import opened LoopRuns

  const MANUAL_OFFSET_X: real := 0.0
  const MANUAL_OFFSET_Y: real := 0.0

  /** Either control loop. */
  datatype Loop = MouseLoop(mouse: Mouse) | XacLoop(common: Common)

  function CommonOf(loop: Loop): Common {
    if loop.MouseLoop? then loop.mouse.common else loop.common
  }

  /** The shared calibration, the loop with its own copy, and the hold for calibration. */
  datatype Board = Board(needs: bool, center: Center, range: Range, loop: Loop)

  function BootCenter(saved: Saved): Center {
    if saved.Saved? then saved.center else WithOffset(NO_CENTER, MANUAL_OFFSET_X, MANUAL_OFFSET_Y)
  }

  function BootRange(saved: Saved): Range {
    if saved.Saved? then saved.range else NO_RANGE
  }

  function Boot(saved: Saved, xac: bool): Board {
    var center, range := BootCenter(saved), BootRange(saved);
    Board(!Loads(saved), center, range,
          if xac then XacLoop(FreshCommon(XAC_CONFIG, center, range)) else MouseLoop(FreshMouse(center, range)))
  }

  /** What a sweep yields from its measurement: nothing when a phase failed or the result is unusable. */
  function SweepResult(measured: Option<(Center, Range)>): Option<(Center, Range)> {
    if measured.None? || !Usable(measured.value.0, measured.value.1, 0.0) then None
    else
      var (center, range) := measured.value;
      Some((center.(deadzone := CenterDeadzone(center, range)), range))
  }

  /** Everything that happens to the calibration while the stick runs. */
  datatype Step =
    | Tick(input: Input, measured: Option<(Center, Range)>, post: Stick, doneAt: int)
    | TrimSet(x: real, y: real)

  /** The tick's input as the loop assembles it. */
  function InputOf(s: Board, step: Step): Input
    requires step.Tick?
  {
    step.input.(needsCalibration := s.needs)
  }

  /** What the ports answer: results come back with the trim the store holds. */
  function AnswersOf(s: Board, step: Step): Answers
    requires step.Tick?
  {
    var result := SweepResult(step.measured);
    var swept := if result.None? then None
                 else Some((WithOffset(result.value.0, s.center.offsetX, s.center.offsetY), result.value.1));
    Answers(swept, step.post, step.doneAt, s.center.offsetX, s.center.offsetY)
  }

  function TickLoop(hypot: Hypot, loop: Loop, i: Input, a: Answers): Loop {
    match loop
    case MouseLoop(m) => MouseLoop(MouseTick(hypot, m, i, a))
    case XacLoop(c) => XacLoop(XacTick(hypot, c, i, a))
  }

  predicate SweepSucceeds(s: Board, step: Step) {
    && step.Tick? && SweepResult(step.measured).Some?
    && ModeOf(CommonOf(s.loop), InputOf(s, step)) == Recalibrating
  }

  /** A tick hands the loop's calibration to the store when a sweep succeeded or drift was corrected. */
  predicate HandsOver(hypot: Hypot, s: Board, step: Step)
    requires step.Tick?
  {
    var i := InputOf(s, step);
    || SweepSucceeds(s, step)
    || (ModeOf(CommonOf(s.loop), i) == Running
        && DriftNudges(CommonOf(s.loop), hypot(i.stick.x, i.stick.y), i.now))
  }

  function Next(hypot: Hypot, s: Board, step: Step): Board {
    match step
    case TrimSet(x, y) => s.(center := WithOffset(s.center, x, y))
    case Tick(_, _, _, _) =>
      var loop := TickLoop(hypot, s.loop, InputOf(s, step), AnswersOf(s, step));
      var c := CommonOf(loop);
      if HandsOver(hypot, s, step)
      then Board(s.needs && !SweepSucceeds(s, step), c.center, c.range, loop)
      else s.(loop := loop)
  }

  predicate CanDrive(center: Center, range: Range) {
    Usable(center, range, LOAD_TOLERANCE)
  }

  /** Unless the output is held for calibration, the live calibration and the loop's copy can drive it. */
  predicate Safe(s: Board) {
    s.needs ||
    (CanDrive(s.center, s.range) && CanDrive(CommonOf(s.loop).center, CommonOf(s.loop).range))
  }

  // --------------------------------------------------------------------------
  // One step
  // --------------------------------------------------------------------------

  lemma UsableWithinTolerance(center: Center, range: Range)
    requires Usable(center, range, 0.0)
    ensures CanDrive(center, range)
  {
    assert MIN_USABLE_TO_NOISE == 3.0;
    assert 3.0 * center.noise * (1.0 - LOAD_TOLERANCE) <= 3.0 * center.noise;
  }

  /** A tick keeps the noise and range of the loop's calibration unless its sweep succeeded. */
  lemma TickKeepsMeasure(hypot: Hypot, loop: Loop, i: Input, a: Answers)
    ensures
      var before, after := CommonOf(loop), CommonOf(TickLoop(hypot, loop, i, a));
      if ModeOf(before, i) == Recalibrating && a.sweep.Some?
      then after.center == a.sweep.value.0 && after.range == a.sweep.value.1
      else after.center.noise == before.center.noise && after.range == before.range
  {
  }

  lemma NextIsSafe(hypot: Hypot, s: Board, step: Step)
    requires Safe(s)
    ensures Safe(Next(hypot, s, step))
  {
    if step.Tick? {
      TickKeepsMeasure(hypot, s.loop, InputOf(s, step), AnswersOf(s, step));
      if SweepSucceeds(s, step) {
        UsableWithinTolerance(step.measured.value.0, step.measured.value.1);
      }
    }
  }

  lemma NextClearsHold(hypot: Hypot, s: Board, step: Step)
    ensures Next(hypot, s, step).needs == (s.needs && !SweepSucceeds(s, step))
  {
  }

  // --------------------------------------------------------------------------
  // Whole runs
  // --------------------------------------------------------------------------

  ghost predicate IsRun(hypot: Hypot, saved: Saved, xac: bool, ss: seq<Board>, steps: seq<Step>) {
    && |ss| == |steps| + 1
    && ss[0] == Boot(saved, xac)
    && forall k :: 0 <= k < |steps| ==> ss[k + 1] == Next(hypot, ss[k], steps[k])
  }

  /** Whatever mix of drift, console trims and sweeps: the live calibration can drive the output
      whenever the output is not held for calibration. */
  lemma {:induction false} RunIsSafe(hypot: Hypot, saved: Saved, xac: bool, ss: seq<Board>, steps: seq<Step>, k: nat)
    requires IsRun(hypot, saved, xac, ss, steps) && k <= |steps|
    ensures Safe(ss[k])
  {
    if k > 0 {
      RunIsSafe(hypot, saved, xac, ss, steps, k - 1);
      NextIsSafe(hypot, ss[k - 1], steps[k - 1]);
      assert ss[k - 1 + 1] == Next(hypot, ss[k - 1], steps[k - 1]);
    }
  }

  /** The output is held for calibration exactly when nothing usable was saved and no sweep has succeeded yet. */
  lemma {:induction false} HeldExactlyUntilSweep(hypot: Hypot, saved: Saved, xac: bool, ss: seq<Board>, steps: seq<Step>, k: nat)
    requires IsRun(hypot, saved, xac, ss, steps) && k <= |steps|
    ensures ss[k].needs <==> !Loads(saved) && forall j :: 0 <= j < k ==> !SweepSucceeds(ss[j], steps[j])
  {
    if k > 0 {
      HeldExactlyUntilSweep(hypot, saved, xac, ss, steps, k - 1);
      NextClearsHold(hypot, ss[k - 1], steps[k - 1]);
      assert ss[k - 1 + 1] == Next(hypot, ss[k - 1], steps[k - 1]);
    }
  }

  /** The tick says the stick is at rest, whichever loop runs. */
  predicate Quiet(hypot: Hypot, s: Board, step: Step)
    requires step.Tick?
  {
    match s.loop
    case MouseLoop(m) => OnlySends(MouseEffects(hypot, m, InputOf(s, step), AnswersOf(s, step)), NEUTRAL_MOUSE)
    case XacLoop(c) => OnlySends(XacEffects(hypot, c, InputOf(s, step), AnswersOf(s, step)), NEUTRAL_XAC)
  }

  /** Nothing usable saved: every report up to and including the first successful sweep's is neutral. */
  lemma QuietUntilCalibrated(hypot: Hypot, saved: Saved, xac: bool, ss: seq<Board>, steps: seq<Step>, k: nat)
    requires IsRun(hypot, saved, xac, ss, steps) && k < |steps| && steps[k].Tick?
    requires !Loads(saved) && forall j :: 0 <= j < k ==> !SweepSucceeds(ss[j], steps[j])
    ensures Quiet(hypot, ss[k], steps[k])
  {
    HeldExactlyUntilSweep(hypot, saved, xac, ss, steps, k);
    var i, a := InputOf(ss[k], steps[k]), AnswersOf(ss[k], steps[k]);
    match ss[k].loop
    case MouseLoop(m) => MouseNeutralUnlessRunning(hypot, m, i, a);
    case XacLoop(c) => XacNeutralUnlessRunning(hypot, c, i, a);
  }

  /** A tick that moves anything does so on a live calibration that can drive the output. */
  lemma MovesOnlyWhenUsable(hypot: Hypot, saved: Saved, xac: bool, ss: seq<Board>, steps: seq<Step>, k: nat)
    requires IsRun(hypot, saved, xac, ss, steps) && k < |steps| && steps[k].Tick?
    requires !Quiet(hypot, ss[k], steps[k])
    ensures CanDrive(ss[k].center, ss[k].range)
  {
    RunIsSafe(hypot, saved, xac, ss, steps, k);
    var i, a := InputOf(ss[k], steps[k]), AnswersOf(ss[k], steps[k]);
    if ss[k].needs {
      match ss[k].loop
      case MouseLoop(m) => MouseNeutralUnlessRunning(hypot, m, i, a);
      case XacLoop(c) => XacNeutralUnlessRunning(hypot, c, i, a);
    }
  }
}

/** The ports of the firmware that touch the calibration. */
module CalibrationGateDevice {
  import opened Options
  import opened Calibration
  import opened CalibrationGateModel

  class EspPorts {
    const store: Store
    var needsCalibration: bool

    /** Boots with what is saved. */
    constructor (saved: Saved)
      ensures fresh(store) && store.InSync()
      ensures store.center == BootCenter(saved) && store.range == BootRange(saved)
      ensures needsCalibration == !Loads(saved)
    {
      var center, range, needs := NO_CENTER, NO_RANGE, false;
      if saved.Saved? {
        center, range := saved.center, saved.range;
      }
      if !Loads(saved) {
        needs := true;
        if saved.Unreadable? {
          center := WithOffset(NO_CENTER, MANUAL_OFFSET_X, MANUAL_OFFSET_Y);
          range := NO_RANGE;
        }
      }
      store := new Store(NO_CENTER, NO_RANGE);
      needsCalibration := needs;
      new;
      store.SetCalibration(center, range);
    }

    /** Runs a sweep that measured this; a usable result replaces the calibration and ends the hold. */
    method RunSweep(measured: Option<(Center, Range)>, center: Center, range: Range)
      returns (ok: bool, newCenter: Center, newRange: Range)
      modifies this, store
      ensures ok == SweepResult(measured).Some?
      ensures ok ==>
        var (c, r) := SweepResult(measured).value;
        && newCenter == WithOffset(c, old(store.center.offsetX), old(store.center.offsetY)) && newRange == r
        && store.center == newCenter && store.range == newRange && store.InSync()
        && !needsCalibration
      ensures !ok ==>
        && newCenter == center && newRange == range
        && unchanged(store) && needsCalibration == old(needsCalibration)
    {
      newCenter, newRange := center, range;
      ok := measured.Some? && Usable(measured.value.0, measured.value.1, 0.0);
      if ok {
        var swept := measured.value.0;
        newRange := measured.value.1;
        swept := swept.(deadzone := CenterDeadzone(swept, newRange));
        store.SetMeasuredCalibration(swept, newRange);
        newCenter := store.center;
        needsCalibration := false;
      }
    }

    /** Hands a drift-corrected center to the store and reads back the one with the store's trim. */
    method ApplyDrift(center: Center, range: Range) returns (newCenter: Center)
      modifies store
      ensures newCenter == WithOffset(center, old(store.center.offsetX), old(store.center.offsetY))
      ensures store.center == newCenter && store.range == range && store.InSync()
    {
      store.SetMeasuredCalibration(center, range);
      newCenter := store.center;
    }
  }
}
