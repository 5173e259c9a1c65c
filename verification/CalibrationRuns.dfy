/** The shared calibration over a whole run: what each step makes of it, and the trim it carries. */
module CalibrationRuns {
  import opened Options
  import opened Calibration
  import DriftModel
  import opened ControlModel
  import opened CalibrationGateModel
  import LoopRuns
  import TickRuns

  /** The radius a stick can use is at least three times the noise. */
  predicate StandsOut(center: Center, range: Range) {
    center.noise >= 0.0 && range.usable > 0.0 && range.usable >= 3.0 * center.noise
  }

  /** This tick is asked to recalibrate, nothing else holds the output, and what its sweep measures is usable. */
  predicate Recalibrates(step: Step) {
    && step.Tick? && step.input.recalibrate && !step.input.outputHold
    && step.measured.Some? && StandsOut(step.measured.value.0, step.measured.value.1)
  }

  /** This tick runs and corrects the drift. */
  predicate Corrects(hypot: LoopRuns.Hypot, s: Board, step: Step) {
    && step.Tick?
    && DriftModel.NudgedBy(CommonOf(s.loop).drift, LoopRuns.DriftEvent(hypot, CommonOf(s.loop), InputOf(s, step)))
  }

  /** What a usable sweep measured: its deadzone keeps one and a half times the noise. */
  function Measured(center: Center, range: Range): Center
    requires StandsOut(center, range)
  {
    center.(deadzone := 1.5 * center.noise / range.usable)
  }

  function Trimmed(c: Center, trim: (real, real)): Center {
    c.(offsetX := trim.0, offsetY := trim.1)
  }

  function TrimOf(c: Center): (real, real) {
    (c.offsetX, c.offsetY)
  }

  /** The shared center and range after a step. */
  function LiveAfter(hypot: LoopRuns.Hypot, s: Board, step: Step): (Center, Range) {
    if step.TrimSet? then (Trimmed(s.center, (step.x, step.y)), s.range)
    else if Recalibrates(step) then
      (Trimmed(Measured(step.measured.value.0, step.measured.value.1), TrimOf(s.center)), step.measured.value.1)
    else if Corrects(hypot, s, step) then (TickRuns.Moved(s.center, step.input.stick), s.range)
    else (s.center, s.range)
  }

  /** The loop's copy differs from the shared calibration in nothing but the trim. */
  predicate InStep(s: Board) {
    Trimmed(CommonOf(s.loop).center, TrimOf(s.center)) == s.center && CommonOf(s.loop).range == s.range
  }

  lemma SweepYields(measured: Option<(Center, Range)>)
    ensures
      SweepResult(measured) ==
        if measured.Some? && StandsOut(measured.value.0, measured.value.1)
        then Some((Measured(measured.value.0, measured.value.1), measured.value.1)) else None
  {
    if measured.Some? {
      var (c, r) := measured.value;
      assert MIN_USABLE_TO_NOISE * c.noise * (1.0 - 0.0) == 3.0 * c.noise;
      if StandsOut(c, r) {
        DeadzoneOf(c, r);
      }
    }
  }

  lemma DeadzoneOf(c: Center, r: Range)
    requires StandsOut(c, r)
    ensures CenterDeadzone(c, r) == 1.5 * c.noise / r.usable
  {
    var d := c.noise * CENTER_MARGIN / r.usable;
    assert d * r.usable == 1.5 * c.noise;
    assert 0.0 <= d <= 0.5;
  }

  lemma SweepSucceedsWhen(s: Board, step: Step)
    ensures SweepSucceeds(s, step) <==> Recalibrates(step)
  {
    if step.Tick? {
      SweepYields(step.measured);
    }
  }

  lemma StepLive(hypot: LoopRuns.Hypot, s: Board, step: Step)
    requires InStep(s)
    ensures
      var t := Next(hypot, s, step);
      InStep(t) && (t.center, t.range) == LiveAfter(hypot, s, step)
  {
    SweepSucceedsWhen(s, step);
    if step.Tick? {
      SweepYields(step.measured);
      TickLive(hypot, s, step);
    }
  }

  lemma TickLive(hypot: LoopRuns.Hypot, s: Board, step: Step)
    requires InStep(s) && step.Tick?
    ensures
      var i, a, before := InputOf(s, step), AnswersOf(s, step), CommonOf(s.loop);
      var after := CommonOf(TickLoop(hypot, s.loop, i, a));
      (after.center, after.range) ==
        if ModeOf(before, i) == Recalibrating && a.sweep.Some? then a.sweep.value
        else if Corrects(hypot, s, step)
        then (Trimmed(TickRuns.Moved(before.center, i.stick), (a.offsetX, a.offsetY)), before.range)
        else (before.center, before.range)
  {
  }

  // --------------------------------------------------------------------------
  // Whole runs
  // --------------------------------------------------------------------------

  /** A boot takes what is saved, usable or not, and nothing at all when it cannot be read; it holds the output for
      calibration unless that stands out from the noise but for a thousandth. */
  lemma BootTakesSaved(saved: Saved, xac: bool)
    ensures
      var s := Boot(saved, xac);
      && InStep(s)
      && (saved.Saved? ==> s.center == saved.center && s.range == saved.range)
      && (saved.Unreadable? ==> s.center == Center(0.0, 0.0, 0.0, 0.0, 0.0, 0.0) && s.range.usable == 0.0)
      && (s.needs <==> !(saved.Saved? && saved.center.noise >= 0.0 && saved.range.usable > 0.0
                         && saved.range.usable >= 2.997 * saved.center.noise))
  {
    if saved.Saved? {
      assert MIN_USABLE_TO_NOISE * saved.center.noise * (1.0 - LOAD_TOLERANCE) == 2.997 * saved.center.noise;
    }
  }

  lemma {:induction false} AlwaysInStep(hypot: LoopRuns.Hypot, saved: Saved, xac: bool, ss: seq<Board>, steps: seq<Step>, k: nat)
    requires IsRun(hypot, saved, xac, ss, steps) && k <= |steps|
    ensures InStep(ss[k])
  {
    if k == 0 {
      BootTakesSaved(saved, xac);
    } else {
      AlwaysInStep(hypot, saved, xac, ss, steps, k - 1);
      StepLive(hypot, ss[k - 1], steps[k - 1]);
      assert ss[k - 1 + 1] == Next(hypot, ss[k - 1], steps[k - 1]);
    }
  }

  /** In every run from a boot on, the loop's copy differs from the shared calibration in nothing but the trim, and
      each step changes the shared one exactly so: a usable sweep replaces it and keeps the trim, a correction moves
      the center, the console sets the trim, and nothing else touches it. */
  lemma LiveFollows(hypot: LoopRuns.Hypot, saved: Saved, xac: bool, ss: seq<Board>, steps: seq<Step>, k: nat)
    requires IsRun(hypot, saved, xac, ss, steps) && k < |steps|
    ensures InStep(ss[k]) && (ss[k + 1].center, ss[k + 1].range) == LiveAfter(hypot, ss[k], steps[k])
    ensures ss[k + 1].needs == (ss[k].needs && !Recalibrates(steps[k]))
  {
    AlwaysInStep(hypot, saved, xac, ss, steps, k);
    StepLive(hypot, ss[k], steps[k]);
    NextClearsHold(hypot, ss[k], steps[k]);
    SweepSucceedsWhen(ss[k], steps[k]);
    assert ss[k + 1] == Next(hypot, ss[k], steps[k]);
  }

  /** The trim last set from the console, or the one saved. */
  function LastTrim(saved: Saved, steps: seq<Step>): (real, real) {
    if steps == [] then (if saved.Saved? then TrimOf(saved.center) else (0.0, 0.0))
    else
      var last := steps[|steps| - 1];
      if last.TrimSet? then (last.x, last.y) else LastTrim(saved, steps[..|steps| - 1])
  }

  /** No sweep and no correction ever loses the trim. */
  lemma {:induction false} TrimIsKept(hypot: LoopRuns.Hypot, saved: Saved, xac: bool, ss: seq<Board>, steps: seq<Step>, k: nat)
    requires IsRun(hypot, saved, xac, ss, steps) && k <= |steps|
    ensures TrimOf(ss[k].center) == LastTrim(saved, steps[..k])
  {
    if k == 0 {
      BootTakesSaved(saved, xac);
    } else {
      TrimIsKept(hypot, saved, xac, ss, steps, k - 1);
      LiveFollows(hypot, saved, xac, ss, steps, k - 1);
      assert steps[..k][..k - 1] == steps[..k - 1];
    }
  }
}
