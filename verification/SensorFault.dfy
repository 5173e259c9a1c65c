/**
 When the sensor can no longer be trusted: the monitor's streak counters, and the history
 property they compute.
 */
module SensorFaultModel {
  import opened Bytes
  import opened Options

  /** One poll of the sensor; count is its conversion counter, when it has one. */
  datatype Reading = Reading(ok: bool, x: real, y: real, count: Option<Byte>)

  datatype Fault = NoFault | ReadFailed | StuckReading

  datatype Config = Config(tripAfterFailed: int, stuckAfterSamples: int, stuckAfterStale: int, recoverAfterGood: int)

  const MOUSE_CONFIG := Config(3, 500, 50, 10)
  const XAC_CONFIG := Config(6, 1000, 100, 20)

  // --------------------------------------------------------------------------
  // The monitor
  // --------------------------------------------------------------------------

  datatype Monitor = Monitor(
    fault: Fault,
    firstFault: Fault,
    faultCount: nat,
    failedStreak: nat,
    goodStreak: nat,
    identicalStreak: nat,
    last: Option<(real, real)>,
    staleStreak: nat,
    lastConversion: Option<Byte>)

  const FRESH := Monitor(NoFault, NoFault, 0, 0, 0, 0, None, 0, None)

  predicate Faulted(m: Monitor) {
    m.fault != NoFault
  }

  function SaturatingIncrement(streak: nat, limit: int): nat {
    if limit > 0 && streak >= limit then limit else streak + 1
  }

  function Trip(m: Monitor, fault: Fault): Monitor {
    if m.fault == fault then m
    else m.(fault := fault, faultCount := m.faultCount + 1, goodStreak := 0,
            firstFault := if m.firstFault == NoFault then fault else m.firstFault)
  }

  function CountFailure(c: Config, m: Monitor): Monitor {
    var next := m.(failedStreak := m.failedStreak + 1, goodStreak := 0);
    if next.failedStreak >= c.tripAfterFailed then Trip(next, ReadFailed) else next
  }

  function CompareSample(c: Config, m: Monitor, r: Reading): Monitor {
    m.(identicalStreak := if m.last == Some((r.x, r.y)) then SaturatingIncrement(m.identicalStreak, c.stuckAfterSamples) else 0,
       last := Some((r.x, r.y)))
  }

  function CompareConversion(c: Config, m: Monitor, r: Reading): Monitor {
    if r.count.None? then m
    else m.(staleStreak := if m.lastConversion == r.count then SaturatingIncrement(m.staleStreak, c.stuckAfterStale) else 0,
            lastConversion := r.count)
  }

  predicate StreaksStuck(c: Config, m: Monitor) {
    || (c.stuckAfterSamples > 0 && m.identicalStreak >= c.stuckAfterSamples)
    || (c.stuckAfterStale > 0 && m.staleStreak >= c.stuckAfterStale)
  }

  function CountSuccess(c: Config, m: Monitor, r: Reading): Monitor {
    var counted := m.(failedStreak := 0, goodStreak := m.goodStreak + 1);
    var next := CompareConversion(c, CompareSample(c, counted, r), r);
    if StreaksStuck(c, next) then Trip(next, StuckReading).(goodStreak := 0)
    else if Faulted(next) && next.goodStreak >= c.recoverAfterGood then next.(fault := NoFault)
    else next
  }

  /** The monitor after one more reading. */
  function Observe(c: Config, m: Monitor, r: Reading): Monitor {
    if r.ok then CountSuccess(c, m, r) else CountFailure(c, m)
  }

  function ObserveAll(c: Config, h: seq<Reading>): Monitor {
    if h == [] then FRESH else Observe(c, ObserveAll(c, h[..|h| - 1]), h[|h| - 1])
  }

  lemma ObserveAllAppend(c: Config, h: seq<Reading>, r: Reading)
    ensures ObserveAll(c, h + [r]) == Observe(c, ObserveAll(c, h), r)
  {
    assert (h + [r])[..|h|] == h;
  }

  // --------------------------------------------------------------------------
  // What a history says
  // --------------------------------------------------------------------------

  /** The conversion counts that came with successful readings, in order. */
  function Counts(h: seq<Reading>): seq<Byte> {
    if h == [] then []
    else Counts(h[..|h| - 1]) + if h[|h| - 1].ok && h[|h| - 1].count.Some? then [h[|h| - 1].count.value] else []
  }

  /** The raw values of the successful readings, in order. */
  function Samples(h: seq<Reading>): seq<(real, real)> {
    if h == [] then []
    else Samples(h[..|h| - 1]) + if h[|h| - 1].ok then [(h[|h| - 1].x, h[|h| - 1].y)] else []
  }

  /** How many values at the end repeat the one before them. */
  function RepeatRun<T(==)>(values: seq<T>): nat {
    var n := |values|;
    if n < 2 || values[n - 1] != values[n - 2] then 0 else 1 + RepeatRun(values[..n - 1])
  }

  function FailedRun(h: seq<Reading>): nat {
    if h == [] || h[|h| - 1].ok then 0 else 1 + FailedRun(h[..|h| - 1])
  }

  /** The history ends in enough failed reads. */
  predicate EndsFailed(c: Config, h: seq<Reading>) {
    h != [] && !h[|h| - 1].ok && FailedRun(h) >= c.tripAfterFailed
  }

  /** The history ends in a successful read of a stuck sensor. */
  predicate EndsStuck(c: Config, h: seq<Reading>) {
    && h != [] && h[|h| - 1].ok
    && (|| (c.stuckAfterSamples > 0 && RepeatRun(Samples(h)) >= c.stuckAfterSamples)
        || (c.stuckAfterStale > 0 && RepeatRun(Counts(h)) >= c.stuckAfterStale))
  }

  predicate EndsClean(c: Config, h: seq<Reading>) {
    h != [] && h[|h| - 1].ok && !EndsStuck(c, h)
  }

  /** The fault this history trips with its last reading. */
  function TripAt(c: Config, h: seq<Reading>): Fault {
    if EndsFailed(c, h) then ReadFailed else if EndsStuck(c, h) then StuckReading else NoFault
  }

  /** The history ends in enough clean reads in a row, at least one. */
  ghost predicate Recovers(c: Config, h: seq<Reading>) {
    && EndsClean(c, h)
    && c.recoverAfterGood <= |h|
    && forall k {:trigger h[..k]} :: |h| - c.recoverAfterGood < k <= |h| ==> EndsClean(c, h[..k])
  }

  function CleanRun(c: Config, h: seq<Reading>): nat {
    if EndsClean(c, h) then 1 + CleanRun(c, h[..|h| - 1]) else 0
  }

  /** The fault in effect after a history. */
  function FaultAfter(c: Config, h: seq<Reading>): Fault {
    if h == [] then NoFault
    else if TripAt(c, h) != NoFault then TripAt(c, h)
    else if EndsClean(c, h) && CleanRun(c, h) >= c.recoverAfterGood then NoFault
    else FaultAfter(c, h[..|h| - 1])
  }

  /** How many readings of a history put a fault in effect that was not in effect before. */
  function FaultsSeen(c: Config, h: seq<Reading>): nat {
    if h == [] then 0
    else
      var before := h[..|h| - 1];
      FaultsSeen(c, before) + if TripAt(c, h) != NoFault && TripAt(c, h) != FaultAfter(c, before) then 1 else 0
  }

  /** The first fault that any reading of a history trips. */
  function FirstSeen(c: Config, h: seq<Reading>): Fault {
    if h == [] then NoFault
    else if FirstSeen(c, h[..|h| - 1]) != NoFault then FirstSeen(c, h[..|h| - 1])
    else TripAt(c, h)
  }

  function Capped(run: nat, limit: int): nat {
    if limit > 0 && run >= limit then limit else run
  }

  function Last<T>(values: seq<T>): Option<T> {
    if values == [] then None else Some(values[|values| - 1])
  }

  predicate StreaksReflect(c: Config, m: Monitor, h: seq<Reading>) {
    && m.identicalStreak == Capped(RepeatRun(Samples(h)), c.stuckAfterSamples)
    && m.last == Last(Samples(h))
    && m.staleStreak == Capped(RepeatRun(Counts(h)), c.stuckAfterStale)
    && m.lastConversion == Last(Counts(h))
  }

  /** Every counter of the monitor is a measure of the history it has seen. */
  predicate Reflects(c: Config, m: Monitor, h: seq<Reading>) {
    && m.failedStreak == FailedRun(h)
    && m.goodStreak == CleanRun(c, h)
    && StreaksReflect(c, m, h)
    && m.fault == FaultAfter(c, h)
    && m.faultCount == FaultsSeen(c, h)
  }

  // --------------------------------------------------------------------------
  // The monitor computes the history property
  // --------------------------------------------------------------------------

  lemma RepeatRunAppend<T>(values: seq<T>, v: T, limit: int)
    ensures
      Capped(RepeatRun(values + [v]), limit) ==
      if Last(values) == Some(v) then SaturatingIncrement(Capped(RepeatRun(values), limit), limit) else 0
  {
    assert (values + [v])[..|values|] == values;
  }

  lemma {:induction false} ObserveReflects(c: Config, h: seq<Reading>)
    ensures Reflects(c, ObserveAll(c, h), h)
  {
    if h != [] {
      ObserveReflects(c, h[..|h| - 1]);
      ObserveStep(c, ObserveAll(c, h[..|h| - 1]), h);
    }
  }

  lemma CompareReflects(c: Config, m: Monitor, h: seq<Reading>)
    requires h != [] && h[|h| - 1].ok && StreaksReflect(c, m, h[..|h| - 1])
    ensures
      var next := CompareConversion(c, CompareSample(c, m, h[|h| - 1]), h[|h| - 1]);
      StreaksReflect(c, next, h) && StreaksStuck(c, next) == EndsStuck(c, h)
  {
    var before, r := h[..|h| - 1], h[|h| - 1];
    RepeatRunAppend(Samples(before), (r.x, r.y), c.stuckAfterSamples);
    if r.count.Some? {
      RepeatRunAppend(Counts(before), r.count.value, c.stuckAfterStale);
    } else {
      assert Counts(before) + [] == Counts(before);
    }
  }

  lemma SuccessStep(c: Config, m: Monitor, h: seq<Reading>)
    requires h != [] && h[|h| - 1].ok && Reflects(c, m, h[..|h| - 1])
    ensures Reflects(c, CountSuccess(c, m, h[|h| - 1]), h)
  {
    var counted := m.(failedStreak := 0, goodStreak := m.goodStreak + 1);
    CompareReflects(c, counted, h);
  }

  lemma FailureStep(c: Config, m: Monitor, h: seq<Reading>)
    requires h != [] && !h[|h| - 1].ok && Reflects(c, m, h[..|h| - 1])
    ensures Reflects(c, CountFailure(c, m), h)
  {
    var before := h[..|h| - 1];
    assert Samples(before) + [] == Samples(before) && Counts(before) + [] == Counts(before);
  }

  lemma ObserveStep(c: Config, m: Monitor, h: seq<Reading>)
    requires h != [] && Reflects(c, m, h[..|h| - 1])
    ensures Reflects(c, Observe(c, m, h[|h| - 1]), h)
  {
    if h[|h| - 1].ok {
      SuccessStep(c, m, h);
    } else {
      FailureStep(c, m, h);
    }
  }

  lemma FirstFaultStep(c: Config, m: Monitor, r: Reading)
    ensures
      var next := Observe(c, m, r);
      next.firstFault == if m.firstFault == NoFault && next.fault != m.fault then next.fault else m.firstFault
  {
  }

  /** The monitor remembers the first fault its history tripped. */
  lemma {:induction false} FirstFaultIsFirst(c: Config, h: seq<Reading>)
    ensures ObserveAll(c, h).firstFault == FirstSeen(c, h)
    ensures ObserveAll(c, h).fault != NoFault ==> FirstSeen(c, h) != NoFault
  {
    if h != [] {
      var before := h[..|h| - 1];
      FirstFaultIsFirst(c, before);
      ObserveReflects(c, before);
      ObserveReflects(c, h);
      FirstFaultStep(c, ObserveAll(c, before), h[|h| - 1]);
    }
  }

  lemma {:induction false} CleanRunMeans(c: Config, h: seq<Reading>, n: int)
    ensures CleanRun(c, h) >= n <==>
            n <= |h| && forall k {:trigger h[..k]} :: |h| - n < k <= |h| ==> EndsClean(c, h[..k])
  {
    assert h[..|h|] == h;
    if n > 0 && EndsClean(c, h) {
      var before := h[..|h| - 1];
      CleanRunMeans(c, before, n - 1);
      assert forall k {:trigger h[..k]} :: 0 <= k < |h| ==> before[..k] == h[..k];
      assert forall k {:trigger before[..k]} :: 0 <= k < |h| ==> before[..k] == h[..k];
    }
  }

  /** Reading i put this fault in effect, and nothing since ended or replaced it. */
  ghost predicate Holds(c: Config, h: seq<Reading>, i: nat, fault: Fault) {
    && 0 < i <= |h|
    && TripAt(c, h[..i]) == fault
    && forall j {:trigger h[..j]} :: i < j <= |h| ==> Lasts(c, h[..j], fault)
  }

  /** The last reading of this history neither ends this fault nor puts another in effect. */
  ghost predicate Lasts(c: Config, h: seq<Reading>, fault: Fault) {
    !Recovers(c, h) && (TripAt(c, h) == NoFault || TripAt(c, h) == fault)
  }

  lemma PrefixOfPrefix(h: seq<Reading>, j: nat)
    requires j < |h|
    ensures h[..|h| - 1][..j] == h[..j]
  {
  }

  lemma HoldsLonger(c: Config, h: seq<Reading>, i: nat, fault: Fault)
    requires h != [] && Holds(c, h[..|h| - 1], i, fault)
    requires !Recovers(c, h) && TripAt(c, h) == NoFault
    ensures Holds(c, h, i, fault)
  {
    assert h[..|h|] == h;
    PrefixOfPrefix(h, i);
    forall j {:trigger h[..j]} | i < j <= |h| ensures Lasts(c, h[..j], fault) {
      if j < |h| {
        PrefixOfPrefix(h, j);
        assert Lasts(c, h[..|h| - 1][..j], fault);
      }
    }
  }

  lemma HeldBefore(c: Config, h: seq<Reading>, i: nat, fault: Fault)
    requires i < |h| && Holds(c, h, i, fault)
    ensures Holds(c, h[..|h| - 1], i, fault)
  {
    var before := h[..|h| - 1];
    PrefixOfPrefix(h, i);
    forall j {:trigger before[..j]} | i < j <= |before| ensures Lasts(c, before[..j], fault) {
      PrefixOfPrefix(h, j);
      assert Lasts(c, h[..j], fault);
    }
  }

  /** A fault is in effect exactly when some reading tripped it and no later history recovered. */
  lemma {:induction false} FaultExactlyWhenHeld(c: Config, h: seq<Reading>, fault: Fault)
    requires fault != NoFault
    ensures FaultAfter(c, h) == fault <==> exists i: nat :: Holds(c, h, i, fault)
  {
    if h != [] {
      var before := h[..|h| - 1];
      assert h[..|h|] == h;
      FaultExactlyWhenHeld(c, before, fault);
      CleanRunMeans(c, h, c.recoverAfterGood);
      if FaultAfter(c, h) == fault {
        if TripAt(c, h) == fault {
          assert Holds(c, h, |h|, fault);
        } else {
          var i: nat :| Holds(c, before, i, fault);
          HoldsLonger(c, h, i, fault);
        }
      }
      if i: nat :| Holds(c, h, i, fault) {
        if i < |h| {
          HeldBefore(c, h, i, fault);
        }
      }
    }
  }

  /** The monitor holds the output neutral exactly while its history says the sensor is faulty. */
  lemma FaultedExactlyWhen(c: Config, h: seq<Reading>)
    ensures Faulted(ObserveAll(c, h)) <==> exists i: nat, fault :: fault != NoFault && Holds(c, h, i, fault)
    ensures ObserveAll(c, h).faultCount == FaultsSeen(c, h) && ObserveAll(c, h).firstFault == FirstSeen(c, h)
  {
    ObserveReflects(c, h);
    FirstFaultIsFirst(c, h);
    FaultExactlyWhenHeld(c, h, ReadFailed);
    FaultExactlyWhenHeld(c, h, StuckReading);
  }

  /** With the thresholds of either loop: that many failed reads in a row always trip the monitor. */
  lemma {:induction false} FailuresTrip(c: Config, h: seq<Reading>, n: nat)
    requires n == c.tripAfterFailed && 0 < n <= |h|
    requires forall k :: |h| - n <= k < |h| ==> !h[k].ok
    ensures ObserveAll(c, h).fault == ReadFailed
  {
    ObserveReflects(c, h);
    FailedRunAtLeast(h, n);
  }

  lemma {:induction false} FailedRunAtLeast(h: seq<Reading>, n: nat)
    requires n <= |h| && forall k :: |h| - n <= k < |h| ==> !h[k].ok
    ensures FailedRun(h) >= n
  {
    if n > 0 {
      FailedRunAtLeast(h[..|h| - 1], n - 1);
    }
  }
}

/** The monitor as the object the control loop updates on every tick. */
module SensorFaultDevice {
  import opened Bytes
  import opened Options
  import opened SensorFaultModel

  class SensorFaultMonitor {
    const config: Config
    var fault: Fault
    var firstFault: Fault
    var faultCount: nat
    var failedStreak: nat
    var goodStreak: nat
    var identicalStreak: nat
    var last: Option<(real, real)>
    var staleStreak: nat
    var lastConversion: Option<Byte>
    ghost var history: seq<Reading>

    ghost function State(): Monitor
      reads this
    {
      Monitor(fault, firstFault, faultCount, failedStreak, goodStreak, identicalStreak, last, staleStreak, lastConversion)
    }

    ghost predicate Valid()
      reads this
    {
      State() == ObserveAll(config, history)
    }

    constructor (config: Config)
      ensures this.config == config && history == [] && Valid()
    {
      this.config := config;
      fault, firstFault, faultCount := NoFault, NoFault, 0;
      failedStreak, goodStreak, identicalStreak, staleStreak := 0, 0, 0, 0;
      last, lastConversion := None, None;
      history := [];
    }

    method Reset()
      modifies this
      ensures Valid() && history == []
    {
      fault, firstFault, faultCount := NoFault, NoFault, 0;
      failedStreak, goodStreak, identicalStreak, staleStreak := 0, 0, 0, 0;
      last, lastConversion := None, None;
      history := [];
    }

    method TripTo(f: Fault)
      modifies this`fault, this`firstFault, this`faultCount, this`goodStreak
      ensures State() == Trip(old(State()), f)
    {
      if fault == f {
        return;
      }
      fault := f;
      faultCount := faultCount + 1;
      goodStreak := 0;
      if firstFault == NoFault {
        firstFault := f;
      }
    }

    method Compare(x: real, y: real, count: Option<Byte>)
      modifies this`identicalStreak, this`last, this`staleStreak, this`lastConversion
      ensures
        var r := Reading(true, x, y, count);
        State() == CompareConversion(config, CompareSample(config, old(State()), r), r)
    {
      if last == Some((x, y)) {
        identicalStreak := SaturatingIncrement(identicalStreak, config.stuckAfterSamples);
      } else {
        identicalStreak := 0;
      }
      last := Some((x, y));
      if count.Some? {
        if lastConversion == count {
          staleStreak := SaturatingIncrement(staleStreak, config.stuckAfterStale);
        } else {
          staleStreak := 0;
        }
        lastConversion := count;
      }
    }

    method TakeFailed()
      modifies this`fault, this`firstFault, this`faultCount, this`failedStreak, this`goodStreak
      ensures State() == CountFailure(config, old(State()))
    {
      failedStreak := failedStreak + 1;
      goodStreak := 0;
      if failedStreak >= config.tripAfterFailed {
        TripTo(ReadFailed);
      }
    }

    method TakeGood(x: real, y: real, count: Option<Byte>)
      modifies this
      ensures State() == CountSuccess(config, old(State()), Reading(true, x, y, count))
      ensures history == old(history)
    {
      failedStreak := 0;
      goodStreak := goodStreak + 1;
      Compare(x, y, count);
      var samplesStuck := config.stuckAfterSamples > 0 && identicalStreak >= config.stuckAfterSamples;
      var conversionsStuck := config.stuckAfterStale > 0 && staleStreak >= config.stuckAfterStale;
      if samplesStuck || conversionsStuck {
        TripTo(StuckReading);
        goodStreak := 0;
      } else if fault != NoFault && goodStreak >= config.recoverAfterGood {
        fault := NoFault;
      }
    }

    /** Takes one reading; true while the output must be neutral. */
    method Update(readOk: bool, x: real, y: real, count: Option<Byte>) returns (faulted: bool)
      requires Valid()
      modifies this
      ensures Valid() && history == old(history) + [Reading(readOk, x, y, count)]
      ensures State() == Observe(config, old(State()), Reading(readOk, x, y, count))
      ensures faulted == Faulted(State())
    {
      if readOk {
        TakeGood(x, y, count);
      } else {
        TakeFailed();
      }
      history := history + [Reading(readOk, x, y, count)];
      assert history[..|history| - 1] == old(history);
      return fault != NoFault;
    }
  }
}
