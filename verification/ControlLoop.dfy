/** The control loops as objects that change on every tick and call the outside world. */
module ControlDevice {
  import opened Bytes
  import opened Options
  import opened Calibration
  import opened DriftModel
  import opened SensorFaultModel
  import opened SensorFaultDevice
  import opened ControlModel

  /** The state both loops share. Effects are logged as the calls the ports receive. */
  class Engine<R> {
    const neutral: R
    const sensor: SensorFaultMonitor
    const drift: DriftCompensator
    var wasFaulted: bool
    var goodReads: nat
    var observed: bool
    var driftNudges: nat
    var center: Center
    var range: Range
    var log: seq<Effect<R>>

    ghost const Repr: set<object>

    constructor (config: Config, center: Center, range: Range, neutral: R)
      ensures Valid() && fresh(Repr)
      ensures State() == FreshCommon(config, center, range) && log == []
      ensures this.neutral == neutral
    {
      var monitor := new SensorFaultMonitor(config);
      var compensator := new DriftCompensator();
      this.neutral := neutral;
      sensor, drift := monitor, compensator;
      wasFaulted, goodReads, observed, driftNudges := false, 0, false, 0;
      this.center, this.range := center, range;
      log := [];
      Repr := {this, monitor, compensator};
    }

    ghost predicate Valid()
      reads this, sensor
    {
      && Repr == {this, sensor, drift}
      && sensor.Valid()
    }

    ghost function State(): Common
      reads this, sensor, drift
    {
      Common(sensor.config, sensor.State(), wasFaulted, goodReads, observed, drift.State(), driftNudges, center, range)
    }

    method Send(report: R)
      requires Valid()
      modifies this`log
      ensures Valid() && log == old(log) + [Effect.Send(report)]
    {
      log := log + [Effect.Send(report)];
    }

    /** Feeds the monitor and reports its edges. */
    method SensorUpdate(s: Stick) returns (faulted: bool, tripped: bool, recovered: bool)
      requires Valid()
      modifies this, sensor
      ensures Valid()
      ensures State() == SensorStep(old(State()), s)
      ensures log == old(log) + SensorEffects(old(State()), s)
      ensures faulted == wasFaulted
      ensures tripped == (faulted && !old(wasFaulted)) && recovered == (!faulted && old(wasFaulted))
    {
      faulted := sensor.Update(s.readOk, s.rawX, s.rawY, s.count);
      tripped, recovered := false, false;
      if faulted != wasFaulted {
        wasFaulted := faulted;
        tripped, recovered := faulted, !faulted;
        log := log + [FaultChanged(faulted, sensor.fault, sensor.faultCount)];
      }
      goodReads := if s.readOk then goodReads + 1 else 0;
      if !observed && !faulted && goodReads >= sensor.config.recoverAfterGood {
        observed := true;
        log := log + [ObservedHealthy];
      }
    }

    method DriftUpdate(i: Input, mag: real, a: Answers)
      requires Valid()
      modifies this, drift
      ensures Valid()
      ensures State() == DriftStep(old(State()), i, mag, a)
      ensures log == old(log) + DriftEffects(old(State()), i, mag)
    {
      var nudged, x, y := drift.Update(i.stick.rawX, i.stick.rawY, mag, center.x, center.y, i.now);
      if nudged {
        center := center.(x := x, y := y);
        driftNudges := driftNudges + 1;
        log := log + [ApplyDrift(center, range)];
        center := WithOffset(center, a.offsetX, a.offsetY);
        if driftNudges % SAVE_EVERY == 0 {
          log := log + [SaveToFlash];
        }
      }
    }

    /** A neutral report, the sweep, and another neutral report. */
    method Recalibrate(a: Answers)
      requires Valid()
      modifies this, drift
      ensures Valid()
      ensures State() == SweepDone(old(State()), a)
      ensures log == old(log) + [Effect.Send(neutral), RunSweep, Effect.Send(neutral)]
    {
      log := log + [Effect.Send(neutral)];
      log := log + [RunSweep];
      if a.sweep.Some? {
        center, range := a.sweep.value.0, a.sweep.value.1;
      }
      drift.Reset();
      log := log + [Effect.Send(neutral)];
    }
  }

  class MouseLoop {
    const engine: Engine<MouseReport>
    var nudge: Nudge
    var scrollPolls: nat
    var windowStart: int
    var prevX: real
    var prevY: real
    var initialised: bool

    ghost predicate Valid()
      reads this, engine, engine.sensor
    {
      && this !in engine.Repr && engine.Valid()
      && engine.neutral == NEUTRAL_MOUSE
    }

    ghost function State(): Mouse
      reads this, engine, engine.sensor, engine.drift
    {
      Mouse(engine.State(), nudge, scrollPolls, windowStart, prevX, prevY, initialised)
    }

    constructor (center: Center, range: Range)
      ensures Valid() && fresh(engine) && fresh(engine.Repr)
      ensures State() == FreshMouse(center, range) && engine.log == []
    {
      engine := new Engine(MOUSE_CONFIG, center, range, NEUTRAL_MOUSE);
      nudge, scrollPolls, windowStart, prevX, prevY, initialised := NoNudge, 0, 0, 0.0, 0.0, false;
    }

    method LetGo()
      modifies this`nudge, this`scrollPolls
      ensures State() == Release(old(State()))
    {
      nudge, scrollPolls := NoNudge, 0;
    }

    method RebaseAt(x: real, y: real, now: int)
      modifies this`windowStart, this`prevX, this`prevY, this`initialised
      ensures State() == Rebase(old(State()), x, y, now)
    {
      windowStart, prevX, prevY, initialised := now, x, y, true;
    }

    /** Nudge detection of one tick. */
    method DetectNudge(hypot: (real, real) -> real, i: Input)
      modifies this
      ensures State() == DetectStep(hypot, old(State()), i)
    {
      if !initialised {
        RebaseAt(i.stick.x, i.stick.y, i.now);
      }
      var over := Millis(i.now - windowStart) >= i.settings.holdTime;
      if !i.settings.enabled {
        if nudge != NoNudge {
          LetGo();
        }
        RebaseAt(i.stick.x, i.stick.y, i.now);
      }
      if over {
        var mag := hypot(i.stick.x, i.stick.y);
        if nudge == NoNudge {
          if i.settings.enabled && mag - hypot(prevX, prevY) >= i.settings.distance {
            nudge := Classify(i.stick.x, i.stick.y);
            scrollPolls := 0;
          }
        } else if mag <= i.settings.exit {
          nudge := NoNudge;
        }
        RebaseAt(i.stick.x, i.stick.y, i.now);
      }
    }

    /** The report of a running tick. */
    method MakeReport(i: Input) returns (report: MouseReport)
      modifies this`scrollPolls
      ensures State() == CountScroll(old(State()))
      ensures report == ReportOf(State(), i)
    {
      var buttons: Byte := if nudge == Forward then 1 else if nudge == Right then 2 else 0;
      report := MouseReport(buttons, 0, 0, 0);
      if nudge == NoNudge {
        report := report.(dx := ToDelta(i.stick.x * SENSITIVITY), dy := ToDelta(i.stick.y * SENSITIVITY));
      } else if nudge == Left || nudge == Back {
        scrollPolls := scrollPolls + 1;
        if scrollPolls % SCROLL_DIVIDER == 0 {
          report := report.(wheel := if nudge == Left then 1 else -1);
        }
      }
    }

    method HeldTick(i: Input)
      requires Valid()
      modifies this, engine, engine.sensor
      ensures Valid()
      ensures State() == Rebase(Release(old(State()).(common := SensorStep(old(State()).common, i.stick))),
                                i.stick.x, i.stick.y, i.now)
      ensures engine.log == old(engine.log) + (SensorEffects(old(State()).common, i.stick) + [Send(NEUTRAL_MOUSE)])
    {
      var _, _, _ := engine.SensorUpdate(i.stick);
      LetGo();
      RebaseAt(i.stick.x, i.stick.y, i.now);
      engine.Send(NEUTRAL_MOUSE);
    }

    /** The sensor's part of a tick that is not held. */
    method SensorTick(i: Input) returns (faulted: bool)
      requires Valid()
      modifies this, engine, engine.sensor
      ensures Valid()
      ensures State() == SensorEdges(old(State()), i)
      ensures engine.log == old(engine.log) + SensorEffects(old(State()).common, i.stick)
      ensures faulted == Faulted(Observe(old(State()).common.config, old(State()).common.monitor, ReadingOf(i.stick)))
    {
      var tripped, recovered;
      faulted, tripped, recovered := engine.SensorUpdate(i.stick);
      if tripped {
        LetGo();
      }
      if recovered {
        RebaseAt(i.stick.x, i.stick.y, i.now);
      }
    }

    method RecalibrationTick(a: Answers)
      requires Valid()
      modifies this, engine, engine.drift
      ensures Valid()
      ensures
        var released := Release(old(State()));
        State() == Rebase(released.(common := SweepDone(released.common, a)), a.post.x, a.post.y, a.doneAt)
      ensures engine.log == old(engine.log) + [Send(NEUTRAL_MOUSE), RunSweep, Send(NEUTRAL_MOUSE)]
    {
      LetGo();
      engine.Recalibrate(a);
      RebaseAt(a.post.x, a.post.y, a.doneAt);
    }

    method RunningTick(hypot: (real, real) -> real, i: Input, a: Answers)
      requires Valid()
      modifies this, engine, engine.drift
      ensures Valid()
      ensures
        var next := CountScroll(DetectStep(hypot, old(State()), i));
        && State() == next.(common := DriftStep(next.common, i, hypot(i.stick.x, i.stick.y), a))
        && engine.log == old(engine.log) +
             ([Send(ReportOf(next, i))] + DriftEffects(next.common, i, hypot(i.stick.x, i.stick.y)))
    {
      DetectNudge(hypot, i);
      var report := MakeReport(i);
      engine.Send(report);
      engine.DriftUpdate(i, hypot(i.stick.x, i.stick.y), a);
    }

    method Tick(hypot: (real, real) -> real, i: Input, a: Answers)
      requires Valid()
      modifies this, engine, engine.sensor, engine.drift
      ensures Valid()
      ensures State() == MouseTick(hypot, old(State()), i, a)
      ensures engine.log == old(engine.log) + MouseEffects(hypot, old(State()), i, a)
    {
      if HoldsOutput(i) {
        HeldTick(i);
        return;
      }
      var faulted := SensorTick(i);
      if faulted && !i.recalibrate {
        engine.Send(NEUTRAL_MOUSE);
      } else if i.recalibrate {
        RecalibrationTick(a);
      } else {
        RunningTick(hypot, i, a);
      }
    }
  }

  class XacLoop {
    const engine: Engine<XacReport>

    ghost predicate Valid()
      reads engine, engine.sensor
    {
      && this !in engine.Repr && engine.Valid()
      && engine.neutral == NEUTRAL_XAC
    }

    constructor (center: Center, range: Range)
      ensures Valid() && fresh(engine) && fresh(engine.Repr)
      ensures engine.State() == FreshCommon(XAC_CONFIG, center, range) && engine.log == []
    {
      engine := new Engine(XAC_CONFIG, center, range, NEUTRAL_XAC);
    }

    method RunningTick(hypot: (real, real) -> real, i: Input, a: Answers)
      requires Valid()
      modifies engine, engine.drift
      ensures Valid()
      ensures engine.State() == DriftStep(old(engine.State()), i, hypot(i.stick.x, i.stick.y), a)
      ensures engine.log == old(engine.log) +
                ([Send(XacReport(i.stick.x, i.stick.y))]
                 + DriftEffects(old(engine.State()), i, hypot(i.stick.x, i.stick.y)))
    {
      engine.Send(XacReport(i.stick.x, i.stick.y));
      engine.DriftUpdate(i, hypot(i.stick.x, i.stick.y), a);
    }

    method Tick(hypot: (real, real) -> real, i: Input, a: Answers)
      requires Valid()
      modifies engine, engine.sensor, engine.drift
      ensures Valid()
      ensures engine.State() == XacTick(hypot, old(engine.State()), i, a)
      ensures engine.log == old(engine.log) + XacEffects(hypot, old(engine.State()), i, a)
    {
      var faulted, _, _ := engine.SensorUpdate(i.stick);
      if HoldsOutput(i) || (faulted && !i.recalibrate) {
        engine.Send(NEUTRAL_XAC);
      } else if i.recalibrate {
        engine.Recalibrate(a);
      } else {
        RunningTick(hypot, i, a);
      }
    }
  }
}
