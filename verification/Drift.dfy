/**
 Correction of slow center drift: when the center may be nudged, and how far. Times are
 nanoseconds on a clock that never goes back.
 */
module DriftModel {
  import opened Options

  const MILLISECOND: int := 1_000_000
  const IDLE_MAGNITUDE: real := 0.05
  const IDLE_DWELL: int := 2000 * MILLISECOND
  const BLEND_RATE: real := 0.02
  const MIN_NUDGE_INTERVAL: int := 500 * MILLISECOND
  const SAVE_EVERY: nat := 20

  datatype Drift = Drift(idleSince: Option<int>, lastNudge: Option<int>)

  const AT_REST := Drift(None, None)

  /** The center is nudged at this sample. */
  predicate NudgesNow(d: Drift, mag: real, now: int) {
    && mag <= IDLE_MAGNITUDE
    && d.idleSince.Some? && now - d.idleSince.value >= IDLE_DWELL
    && (d.lastNudge.None? || now - d.lastNudge.value >= MIN_NUDGE_INTERVAL)
  }

  function StartIdle(d: Drift, now: int): Drift {
    if d.idleSince.None? then d.(idleSince := Some(now)) else d
  }

  function Sampled(d: Drift, mag: real, now: int): Drift {
    if mag > IDLE_MAGNITUDE then d.(idleSince := None)
    else if NudgesNow(StartIdle(d, now), mag, now) then StartIdle(d, now).(lastNudge := Some(now))
    else StartIdle(d, now)
  }

  function Blend(c: real, raw: real): real {
    c + (raw - c) * BLEND_RATE
  }

  class DriftCompensator {
    var idleSince: Option<int>
    var lastNudge: Option<int>

    ghost function State(): Drift
      reads this
    {
      Drift(idleSince, lastNudge)
    }

    constructor ()
      ensures State() == AT_REST
    {
      idleSince, lastNudge := None, None;
    }

    method Reset()
      modifies this
      ensures State() == AT_REST
    {
      idleSince, lastNudge := None, None;
    }

    method Update(rawX: real, rawY: real, mag: real, centerX: real, centerY: real, now: int)
      returns (nudged: bool, newX: real, newY: real)
      modifies this
      ensures State() == Sampled(old(State()), mag, now)
      ensures nudged == NudgesNow(StartIdle(old(State()), now), mag, now)
      ensures nudged ==> newX == Blend(centerX, rawX) && newY == Blend(centerY, rawY)
      ensures !nudged ==> newX == centerX && newY == centerY
    {
      nudged, newX, newY := false, centerX, centerY;
      if mag > IDLE_MAGNITUDE {
        idleSince := None;
        return;
      }
      if idleSince.None? {
        idleSince := Some(now);
      }
      if now - idleSince.value < IDLE_DWELL {
        return;
      }
      if lastNudge.Some? && now - lastNudge.value < MIN_NUDGE_INTERVAL {
        return;
      }
      newX := Blend(centerX, rawX);
      newY := Blend(centerY, rawY);
      lastNudge := Some(now);
      nudged := true;
    }
  }

  // --------------------------------------------------------------------------
  // Whole runs
  // --------------------------------------------------------------------------

  /** What one tick does to the compensator: feeds it, starts it over after a sweep, or leaves it alone. */
  datatype Event = Sample(mag: real, now: int) | Restart | Skip

  function Next(d: Drift, e: Event): Drift {
    match e
    case Sample(mag, now) => Sampled(d, mag, now)
    case Restart => AT_REST
    case Skip => d
  }

  predicate NudgedBy(d: Drift, e: Event) {
    e.Sample? && NudgesNow(StartIdle(d, e.now), e.mag, e.now)
  }

  function After(es: seq<Event>): Drift {
    if es == [] then AT_REST else Next(After(es[..|es| - 1]), es[|es| - 1])
  }

  /** The times at which a run nudged the center. */
  function NudgeTimes(es: seq<Event>): seq<int> {
    if es == [] then []
    else
      var e := es[|es| - 1];
      NudgeTimes(es[..|es| - 1]) + if NudgedBy(After(es[..|es| - 1]), e) then [e.now] else []
  }

  /** The clock never goes back. */
  predicate Ordered(es: seq<Event>) {
    forall i, j :: 0 <= i < j < |es| && es[i].Sample? && es[j].Sample? ==> es[i].now <= es[j].now
  }

  predicate Spaced(times: seq<int>, gap: int) {
    forall i :: 0 <= i < |times| - 1 ==> times[i + 1] - times[i] >= gap
  }

  /** Since the latest nudge: remembered, or forgotten by a restart after which idling began anew. */
  predicate RemembersLatest(d: Drift, times: seq<int>) {
    times != [] ==>
      var latest := times[|times| - 1];
      if d.lastNudge.Some? then d.lastNudge.value == latest
      else d.idleSince.None? || d.idleSince.value >= latest
  }

  predicate SampledAt(es: seq<Event>, t: int) {
    exists k :: 0 <= k < |es| && es[k].Sample? && es[k].now == t
  }

  /** Every one of these times is that of a sample of the run. */
  predicate Within(times: seq<int>, es: seq<Event>) {
    forall i :: 0 <= i < |times| ==> SampledAt(es, times[i])
  }

  lemma SampledLonger(es: seq<Event>, t: int)
    requires es != [] && SampledAt(es[..|es| - 1], t)
    ensures SampledAt(es, t)
    ensures Ordered(es) && es[|es| - 1].Sample? ==> t <= es[|es| - 1].now
  {
    var before := es[..|es| - 1];
    var k :| 0 <= k < |before| && before[k].Sample? && before[k].now == t;
    assert es[k] == before[k];
  }

  lemma {:induction false} NudgesAreSamples(es: seq<Event>)
    ensures Within(NudgeTimes(es), es)
  {
    if es != [] {
      var before, e := es[..|es| - 1], es[|es| - 1];
      NudgesAreSamples(before);
      var times := NudgeTimes(before);
      forall i | 0 <= i < |times| ensures SampledAt(es, times[i]) {
        SampledLonger(es, times[i]);
      }
      if e.Sample? {
        assert es[|es| - 1].now == e.now;
      }
    }
  }

  /** One event, given that no nudge so far lies after it. */
  lemma SpacedStep(d: Drift, times: seq<int>, e: Event)
    requires Spaced(times, MIN_NUDGE_INTERVAL) && RemembersLatest(d, times)
    requires times != [] && e.Sample? ==> times[|times| - 1] <= e.now
    ensures
      var next := times + if NudgedBy(d, e) then [e.now] else [];
      Spaced(next, MIN_NUDGE_INTERVAL) && RemembersLatest(Next(d, e), next)
  {
  }

  /** Nudges lie at least the minimum interval apart, also across restarts. */
  lemma {:induction false} NudgesAreSpaced(es: seq<Event>)
    requires Ordered(es)
    ensures Spaced(NudgeTimes(es), MIN_NUDGE_INTERVAL)
    ensures RemembersLatest(After(es), NudgeTimes(es))
  {
    if es != [] {
      var before, e := es[..|es| - 1], es[|es| - 1];
      NudgesAreSpaced(before);
      var times := NudgeTimes(before);
      if times != [] && e.Sample? {
        NudgesAreSamples(before);
        SampledLonger(es, times[|times| - 1]);
      }
      SpacedStep(After(before), times, e);
    }
  }

  lemma {:induction false} SpacedCount(times: seq<int>, gap: nat)
    requires times != [] && Spaced(times, gap)
    ensures (|times| - 1) * gap <= times[|times| - 1] - times[0]
  {
    if |times| > 1 {
      var n := |times| - 1;
      SpacedCount(times[..n], gap);
      assert (n - 1) * gap + gap == n * gap;
      assert times[n] - times[n - 1] >= gap by {
        assert times[(n - 1) + 1] - times[n - 1] >= gap;
      }
    }
  }

  /** Saves asked for by n nudges counted since boot. */
  function SavesBy(n: nat): nat {
    if n == 0 then 0 else SavesBy(n - 1) + if n % SAVE_EVERY == 0 then 1 else 0
  }

  lemma {:induction false} SavesCounted(n: nat)
    ensures SavesBy(n) == n / SAVE_EVERY
  {
    if n > 0 {
      SavesCounted(n - 1);
    }
  }

  /** Within any span of time, however often a recalibration starts the compensator over. */
  lemma SavesBounded(es: seq<Event>, first: int, last: int)
    requires Ordered(es) && first <= last
    requires forall e :: e in es && e.Sample? ==> first <= e.now <= last
    ensures |NudgeTimes(es)| <= (last - first) / MIN_NUDGE_INTERVAL + 1
    ensures SavesBy(|NudgeTimes(es)|) <= ((last - first) / MIN_NUDGE_INTERVAL + 1) / SAVE_EVERY
  {
    var times := NudgeTimes(es);
    NudgesAreSpaced(es);
    NudgesAreSamples(es);
    SavesCounted(|times|);
    if times != [] {
      SpacedCount(times, MIN_NUDGE_INTERVAL);
      var n := |times| - 1;
      assert SampledAt(es, times[0]) && SampledAt(es, times[n]);
      var i :| 0 <= i < |es| && es[i].Sample? && es[i].now == times[0];
      var j :| 0 <= j < |es| && es[j].Sample? && es[j].now == times[n];
      assert es[i] in es && es[j] in es;
      assert n * MIN_NUDGE_INTERVAL <= last - first;
    }
  }

  // --------------------------------------------------------------------------
  // How far
  // --------------------------------------------------------------------------

  function Nudged(c: real, raw: real, n: nat): real {
    if n == 0 then c else Blend(Nudged(c, raw, n - 1), raw)
  }

  function Pow(b: real, n: nat): real {
    if n == 0 then 1.0 else b * Pow(b, n - 1)
  }

  lemma {:induction false} PowRange(b: real, n: nat)
    requires 0.0 < b < 1.0
    ensures 0.0 < Pow(b, n) <= 1.0
    ensures n > 0 ==> Pow(b, n) < 1.0
  {
    if n > 0 {
      PowRange(b, n - 1);
      var p := Pow(b, n - 1);
      assert 0.0 < b * p;
      assert b * p <= b * 1.0;
    }
  }

  /** Nudges toward a constant reading leave exactly (1 - rate)^n of the gap. */
  lemma {:induction false} GapShrinks(c: real, raw: real, n: nat)
    ensures raw - Nudged(c, raw, n) == Pow(1.0 - BLEND_RATE, n) * (raw - c)
  {
    if n > 0 {
      GapShrinks(c, raw, n - 1);
      var b, p, gap := 1.0 - BLEND_RATE, Pow(1.0 - BLEND_RATE, n - 1), raw - c;
      assert raw - Nudged(c, raw, n) == b * (p * gap);
      assert b * (p * gap) == (b * p) * gap;
    }
  }

  /** The center comes closer with every nudge and never passes the reading. */
  lemma NeverOvershoots(c: real, raw: real, n: nat)
    ensures c <= raw ==> c <= Nudged(c, raw, n) <= raw
    ensures raw <= c ==> raw <= Nudged(c, raw, n) <= c
    ensures c != raw ==> Nudged(c, raw, n) != raw
  {
    GapShrinks(c, raw, n);
    PowRange(1.0 - BLEND_RATE, n);
    ScaleRange(Pow(1.0 - BLEND_RATE, n), raw - c);
  }

  lemma ScaleRange(p: real, gap: real)
    requires 0.0 < p <= 1.0
    ensures gap >= 0.0 ==> 0.0 <= p * gap <= gap
    ensures gap <= 0.0 ==> gap <= p * gap <= 0.0
    ensures gap != 0.0 ==> p * gap != 0.0
  {
    assert p * gap == gap - (1.0 - p) * gap;
  }
}
