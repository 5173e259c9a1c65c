/** The calibration the stick runs with, when it can drive the output, and the store that shares it. */
module Calibration {

  const CENTER_MARGIN: real := 1.5
  const MAX_CENTER_DEADZONE: real := 0.5
  const MIN_USABLE_TO_NOISE: real := CENTER_MARGIN / MAX_CENTER_DEADZONE
  const LOAD_TOLERANCE: real := 0.001

  datatype Center = Center(x: real, y: real, noise: real, deadzone: real, offsetX: real, offsetY: real)

  datatype Range = Range(minX: real, maxX: real, minY: real, maxY: real,
                         usable: real, reliableMax: real, normalizedMax: real, deadzone: real)

  const NO_CENTER := Center(0.0, 0.0, 0.0, 0.0, 0.0, 0.0)
  const NO_RANGE := Range(0.0, 0.0, 0.0, 0.0, 0.0, 0.0, 0.0, 0.0)

  /** The radius the stick can use stands out enough from the noise at rest. */
  predicate Usable(center: Center, range: Range, tolerance: real) {
    && center.noise >= 0.0
    && range.usable > 0.0
    && range.usable >= MIN_USABLE_TO_NOISE * center.noise * (1.0 - tolerance)
  }

  function WithOffset(center: Center, x: real, y: real): Center {
    center.(offsetX := x, offsetY := y)
  }

  function Clamp(v: real, low: real, high: real): real {
    if v < low then low else if v > high then high else v
  }

  /** The automatic center deadzone, as a fraction of the usable radius. */
  function CenterDeadzone(center: Center, range: Range): real {
    Clamp(if range.usable > 0.0 then center.noise * CENTER_MARGIN / range.usable else 0.0, 0.0, MAX_CENTER_DEADZONE)
  }

  /** A calibration is usable exactly when its automatic deadzone keeps the whole margin over the noise. */
  lemma UsableExactlyWhenDeadzoneKeepsMargin(center: Center, range: Range)
    requires center.noise >= 0.0 && range.usable > 0.0
    ensures Usable(center, range, 0.0) <==> CenterDeadzone(center, range) * range.usable >= CENTER_MARGIN * center.noise
  {
    var d := center.noise * CENTER_MARGIN / range.usable;
    assert MIN_USABLE_TO_NOISE * center.noise * (1.0 - 0.0) == 3.0 * center.noise;
    assert d * range.usable == center.noise * CENTER_MARGIN;
    assert d >= 0.0;
    if d > MAX_CENTER_DEADZONE {
      assert MAX_CENTER_DEADZONE * range.usable < d * range.usable;
    } else {
      assert d * range.usable <= MAX_CENTER_DEADZONE * range.usable;
    }
  }

  /** What a saved file holds: nothing that can be read, or a calibration. */
  datatype Saved = Unreadable | Saved(center: Center, range: Range)

  predicate Loads(saved: Saved) {
    saved.Saved? && Usable(saved.center, saved.range, LOAD_TOLERANCE)
  }

  // --------------------------------------------------------------------------
  // The store
  // --------------------------------------------------------------------------

  /** Calibration shared by the control loop and the console. Every change is pushed into the joystick
      once there is one. */
  class Store {
    var center: Center
    var range: Range
    var liveCenter: Center
    var liveRange: Range

    ghost predicate InSync()
      reads this
    {
      liveCenter == center && liveRange == range
    }

    constructor (center: Center, range: Range)
      ensures this.center == center && this.range == range && InSync()
    {
      this.center, this.range := center, range;
      liveCenter, liveRange := center, range;
    }

    method Changed()
      modifies this`liveCenter, this`liveRange
      ensures InSync()
    {
      liveCenter, liveRange := center, range;
    }

    method SetCalibration(c: Center, r: Range)
      modifies this
      ensures InSync() && center == c && range == r
    {
      center, range := c, r;
      Changed();
    }

    /** Takes over what was measured and keeps the trim set from the console. */
    method SetMeasuredCalibration(c: Center, r: Range)
      modifies this
      ensures InSync() && range == r
      ensures center == WithOffset(c, old(center.offsetX), old(center.offsetY))
    {
      var x, y := center.offsetX, center.offsetY;
      center := c;
      center := WithOffset(center, x, y);
      range := r;
      Changed();
    }

    method SetManualOffset(x: real, y: real)
      modifies this
      ensures InSync() && range == old(range)
      ensures center == WithOffset(old(center), x, y)
    {
      center := WithOffset(center, x, y);
      Changed();
    }
  }
}
