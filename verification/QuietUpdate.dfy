/** The update protocol and the control loop together: an upload keeps the stick at rest. */
module QuietUpdate {
  import opened FlashModel
  import opened OtaModel
  import opened ServiceModel
  import opened UpdateSystem
  import opened ControlModel
  import opened LoopRuns

  /** In every run from the factory on: while any link uploads, a tick that samples the hold
      counter reports a stick at rest, whatever the sensor, the settings and the console say. */
  lemma UploadKeepsStickAtRest(desc: Descriptor, mode: ServiceModel.Mode, marker: nat, now: int, steps: seq<Step>,
                               hypot: Hypot, m: Mouse, c: Common, i: Input, a: Answers)
    requires Runnable(Factory(desc, mode, marker, now), steps)
    requires Run(Factory(desc, mode, marker, now), steps).engine.active
    requires i.outputHold == (Run(Factory(desc, mode, marker, now), steps).holds > 0)
    ensures OnlySends(MouseEffects(hypot, m, i, a), NEUTRAL_MOUSE)
    ensures OnlySends(XacEffects(hypot, c, i, a), NEUTRAL_XAC)
    ensures MouseTick(hypot, m, i, a).nudge == NoNudge
  {
    EveryRunIsSafe(desc, mode, marker, now, steps);
    MouseNeutralUnlessRunning(hypot, m, i, a);
    XacNeutralUnlessRunning(hypot, c, i, a);
  }
}
