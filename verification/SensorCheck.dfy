/** The console's sensor check before it confirms new firmware: poll until healthy for long enough. */
module SensorCheck {
  import opened Options

  const POLL_MS: int := 500
  const WAIT_MS: int := 10000
  const DWELL_MS: int := 1500
  const MAX_READS: nat := 24

  /** What one read of the diagnostics says about the sensor. */
  datatype Judgement = Healthy | NotObserved | Unsupported | Failed

  datatype Outcome = Confirmed | SkippedCheck | Aborted | GaveUp | Refused

  /** What the check meets: when it began and, round by round, whether the user gives up, what is
      read and the time after the read. */
  datatype World = World(started: int, aborts: nat -> bool, seen: nat -> Judgement, clock: nat -> int)

  /** Every sleep between two rounds takes at least as long as asked for. */
  ghost predicate SleepsLongEnough(w: World) {
    w.clock(0) >= w.started && forall k: nat :: w.clock(k + 1) >= w.clock(k) + POLL_MS
  }

  /** Where the row of healthy reads up to round k began. */
  function RowStart(w: World, k: nat): (i: nat)
    ensures i <= k
  {
    if k == 0 || w.seen(k - 1) != Healthy then k else RowStart(w, k - 1)
  }

  /** Healthy reads, and nothing else, over at least the dwell time. */
  predicate ProvenHealthy(w: World, k: nat) {
    w.seen(k) == Healthy && w.clock(k) - w.clock(RowStart(w, k)) >= DWELL_MS
  }

  predicate Exhausted(w: World, k: nat) {
    w.seen(k) == NotObserved && w.clock(k) - w.started >= WAIT_MS
  }

  /** Round k ends the check with this outcome. */
  predicate Ends(w: World, k: nat, outcome: Outcome) {
    match outcome
    case Aborted => w.aborts(k)
    case SkippedCheck => !w.aborts(k) && w.seen(k) == Unsupported
    case Refused => !w.aborts(k) && w.seen(k) == Failed
    case Confirmed => !w.aborts(k) && ProvenHealthy(w, k)
    case GaveUp => !w.aborts(k) && Exhausted(w, k)
  }

  ghost predicate GoesOn(w: World, k: nat) {
    forall outcome :: !Ends(w, k, outcome)
  }

  // --------------------------------------------------------------------------
  // What the sleeps guarantee
  // --------------------------------------------------------------------------

  lemma {:induction false} ClockAdvances(w: World, i: nat, k: nat)
    requires SleepsLongEnough(w) && i <= k
    ensures w.clock(k) >= w.clock(i) + POLL_MS * (k - i)
  {
    if i < k {
      ClockAdvances(w, i, k - 1);
      assert w.clock(k - 1 + 1) >= w.clock(k - 1) + POLL_MS;
    }
  }

  /** The row reaches back exactly over the rounds that saw nothing else. */
  lemma {:induction false} RowIsLongest(w: World, i: nat, k: nat)
    requires i <= k
    ensures RowStart(w, k) <= i <==> forall j: nat {:trigger w.seen(j)} :: i <= j < k ==> w.seen(j) == Healthy
    decreases k
  {
    if i < k {
      RowIsLongest(w, i, k - 1);
    }
  }

  ghost predicate HealthyFrom(w: World, i: nat, k: nat) {
    i <= k && forall j: nat {:trigger w.seen(j)} :: i <= j <= k ==> w.seen(j) == Healthy
  }

  /** Health is only ever proven by a stretch of healthy reads, and nothing else, that spans the dwell time,
      whatever the clock does. */
  lemma ProvenMeans(w: World, k: nat)
    requires ProvenHealthy(w, k)
    ensures HealthyFrom(w, RowStart(w, k), k) && w.clock(k) - w.clock(RowStart(w, k)) >= DWELL_MS
  {
    RowIsLongest(w, RowStart(w, k), k);
  }

  ghost predicate ClockNeverGoesBack(w: World) {
    forall i: nat, j: nat :: i <= j ==> w.clock(i) <= w.clock(j)
  }

  /** On a clock that never goes back, any such stretch proves it. */
  lemma StretchProves(w: World, i: nat, k: nat)
    requires ClockNeverGoesBack(w)
    requires HealthyFrom(w, i, k) && w.clock(k) - w.clock(i) >= DWELL_MS
    ensures ProvenHealthy(w, k)
  {
    RowIsLongest(w, i, k);
    assert w.seen(k) == Healthy && w.clock(RowStart(w, k)) <= w.clock(i);
  }

  /** From the twentieth round on, a read that does not end the check is a healthy one. */
  lemma LateRoundIsHealthy(w: World, k: nat)
    requires SleepsLongEnough(w) && k >= 20 && GoesOn(w, k)
    ensures w.seen(k) == Healthy
  {
    ClockAdvances(w, 0, k);
    assert !Ends(w, k, Aborted) && !Ends(w, k, SkippedCheck) && !Ends(w, k, Refused) && !Ends(w, k, GaveUp);
  }

  lemma LateRowIsProven(w: World)
    requires SleepsLongEnough(w) && w.seen(23) == Healthy
    requires forall k: nat :: k < 23 ==> GoesOn(w, k)
    ensures ProvenHealthy(w, 23)
  {
    forall j: nat {:trigger w.seen(j)} | 20 <= j < 23 ensures w.seen(j) == Healthy {
      assert GoesOn(w, j);
      LateRoundIsHealthy(w, j);
    }
    RowIsLongest(w, 20, 23);
    ClockAdvances(w, RowStart(w, 23), 20);
    ClockAdvances(w, 20, 23);
  }

  /** When the sleeps are long enough, one of the first 24 rounds ends the check. */
  lemma EndsInTime(w: World)
    requires SleepsLongEnough(w)
    ensures exists k: nat :: k < MAX_READS && !GoesOn(w, k)
  {
    if forall k: nat :: k < 23 ==> GoesOn(w, k) {
      ClockAdvances(w, 0, 23);
      if w.aborts(23) {
        assert Ends(w, 23, Aborted) && !GoesOn(w, 23);
      } else {
        match w.seen(23)
        case Unsupported => assert Ends(w, 23, SkippedCheck) && !GoesOn(w, 23);
        case Failed => assert Ends(w, 23, Refused) && !GoesOn(w, 23);
        case NotObserved => assert Ends(w, 23, GaveUp) && !GoesOn(w, 23);
        case Healthy =>
          LateRowIsProven(w);
          assert Ends(w, 23, Confirmed) && !GoesOn(w, 23);
      }
    }
  }

  lemma FirstIsInTime(w: World, last: nat)
    requires forall j: nat :: j < last ==> GoesOn(w, j)
    ensures SleepsLongEnough(w) ==> last < MAX_READS
  {
    if SleepsLongEnough(w) {
      EndsInTime(w);
    }
  }

  // --------------------------------------------------------------------------
  // The loop
  // --------------------------------------------------------------------------

  lemma GoesOnAfter(w: World, k: nat)
    requires !w.aborts(k)
    requires (w.seen(k) == Healthy && !ProvenHealthy(w, k)) || (w.seen(k) == NotObserved && !Exhausted(w, k))
    ensures GoesOn(w, k)
  {
  }

  /** Polls until a round ends the check, or for as many rounds as the page stays open: the outcome of the
      first round that ends it, and one of the first 24 when the sleeps are long enough. */
  method AwaitSensorHealthy(w: World, rounds: nat) returns (outcome: Option<Outcome>, last: nat)
    ensures outcome.Some? ==> last < rounds && Ends(w, last, outcome.value)
    ensures outcome.None? ==> last == rounds
    ensures forall j: nat :: j < last ==> GoesOn(w, j)
    ensures SleepsLongEnough(w) ==> last < MAX_READS
  {
    var k := 0;
    var waiting := true;
    var healthySince := 0;
    while k < rounds
      invariant k <= rounds
      invariant forall j: nat :: j < k ==> GoesOn(w, j)
      invariant waiting <==> k == 0 || w.seen(k - 1) != Healthy
      invariant !waiting ==> healthySince == w.clock(RowStart(w, k - 1))
    {
      FirstIsInTime(w, k);
      if w.aborts(k) {
        return Some(Aborted), k;
      }
      match w.seen(k) {
        case Unsupported => return Some(SkippedCheck), k;
        case Failed => return Some(Refused), k;
        case Healthy =>
          if waiting {
            healthySince := w.clock(k);
            waiting := false;
          } else if w.clock(k) - healthySince >= DWELL_MS {
            return Some(Confirmed), k;
          }
        case NotObserved =>
          waiting := true;
          if w.clock(k) - w.started >= WAIT_MS {
            return Some(GaveUp), k;
          }
      }
      GoesOnAfter(w, k);
      k := k + 1;
    }
    FirstIsInTime(w, k);
    return None, k;
  }
}
