/**
 When the center is corrected, told from the samples alone: only after the stick has been at rest for the
 dwell time without a break, and not again before the interval since the last correction is over.
 */
module DriftDwell {
  import opened Options
  import opened DriftModel

  /** The stick is at rest in every sample from i up to k, and nothing starts over in between. */
  predicate Rests(es: seq<Event>, i: nat, k: nat)
    requires k <= |es|
  {
    forall j :: i <= j < k ==> !es[j].Restart? && (es[j].Sample? ==> es[j].mag <= IDLE_MAGNITUDE)
  }

  /** At sample k the stick has been at rest since some sample that is the dwell time old. */
  predicate Dwelt(es: seq<Event>, k: nat)
    requires k < |es| && es[k].Sample?
  {
    exists i: nat :: i <= k && DweltSince(es, i, k)
  }

  predicate DweltSince(es: seq<Event>, i: nat, k: nat)
    requires i <= k < |es| && es[k].Sample?
  {
    es[i].Sample? && Rests(es, i, k + 1) && es[k].now - es[i].now >= IDLE_DWELL
  }

  predicate RestartsBetween(es: seq<Event>, j: nat, k: nat)
    requires k <= |es|
  {
    exists r :: j < r < k && es[r].Restart?
  }

  /** The rule: the dwell time is over, and every correction since the last restart is old enough. */
  predicate ShouldNudge(es: seq<Event>, k: nat)
    requires k < |es|
  {
    && es[k].Sample? && Dwelt(es, k)
    && forall j: nat {:trigger ShouldNudge(es, j)} | j < k && ShouldNudge(es, j) && !RestartsBetween(es, j, k) ::
         es[k].now - es[j].now >= MIN_NUDGE_INTERVAL
  }

  /** The compensator corrects the center at event k. */
  predicate Nudges(es: seq<Event>, k: nat)
    requires k < |es|
  {
    NudgedBy(After(es[..k]), es[k])
  }

  // --------------------------------------------------------------------------
  // What the compensator remembers
  // --------------------------------------------------------------------------

  /** The first sample of the stretch of rest that the first k events end with. */
  predicate StretchBegins(es: seq<Event>, i: nat, k: nat)
    requires k <= |es|
  {
    && i < k && es[i].Sample? && Rests(es, i, k)
    && forall j: nat {:trigger Rests(es, j, k)} :: j < i && es[j].Sample? ==> !Rests(es, j, k)
  }

  predicate InStretch(es: seq<Event>, k: nat)
    requires k <= |es|
  {
    exists i: nat :: i < k && es[i].Sample? && Rests(es, i, k)
  }

  ghost predicate RemembersIdle(d: Drift, es: seq<Event>, k: nat)
    requires k <= |es|
  {
    match d.idleSince
    case None => !InStretch(es, k)
    case Some(t) => exists i: nat {:trigger StretchBegins(es, i, k)} :: StretchBegins(es, i, k) && es[i].now == t
  }

  lemma AfterStep(es: seq<Event>, k: nat)
    requires k < |es|
    ensures After(es[..k + 1]) == Next(After(es[..k]), es[k])
  {
    assert es[..k + 1][..k] == es[..k];
  }

  lemma RestsOn(es: seq<Event>, i: nat, k: nat)
    requires i <= k < |es|
    ensures Rests(es, i, k + 1) <==>
            Rests(es, i, k) && !es[k].Restart? && (es[k].Sample? ==> es[k].mag <= IDLE_MAGNITUDE)
  {
  }

  lemma StretchGoesOn(es: seq<Event>, i: nat, k: nat)
    requires k < |es| && StretchBegins(es, i, k) && Rests(es, k, k + 1)
    ensures StretchBegins(es, i, k + 1)
  {
    RestsOn(es, i, k);
    forall j: nat | j < i && es[j].Sample? ensures !Rests(es, j, k + 1) {
      assert !Rests(es, j, k);
      RestsOn(es, j, k);
    }
  }

  lemma StretchStarts(es: seq<Event>, k: nat)
    requires k < |es| && !InStretch(es, k) && es[k].Sample? && Rests(es, k, k + 1)
    ensures StretchBegins(es, k, k + 1)
  {
    forall j: nat | j < k && es[j].Sample? ensures !Rests(es, j, k + 1) {
      assert !Rests(es, j, k);
      RestsOn(es, j, k);
    }
  }

  lemma NoStretchWithout(es: seq<Event>, k: nat)
    requires k < |es|
    requires !Rests(es, k, k + 1) || (es[k].Skip? && !InStretch(es, k))
    ensures !InStretch(es, k + 1)
  {
    forall i: nat | i < k + 1 && es[i].Sample? ensures !Rests(es, i, k + 1) {
      RestsOn(es, i, k);
      if es[k].Skip? {
        assert !Rests(es, i, k);
      }
    }
  }

  lemma {:induction false} IdleIsRemembered(es: seq<Event>, k: nat)
    requires k <= |es|
    ensures RemembersIdle(After(es[..k]), es, k)
  {
    if k > 0 {
      var n := k - 1;
      IdleIsRemembered(es, n);
      AfterStep(es, n);
      var d := After(es[..n]);
      if !Rests(es, n, k) {
        NoStretchWithout(es, n);
      } else if d.idleSince.Some? {
        var i: nat :| StretchBegins(es, i, n) && es[i].now == d.idleSince.value;
        StretchGoesOn(es, i, n);
      } else if es[n].Sample? {
        StretchStarts(es, n);
      } else {
        NoStretchWithout(es, n);
      }
    }
  }

  /** The latest correction among the first k events, unless a restart came after it. */
  predicate LatestNudge(es: seq<Event>, i: nat, k: nat)
    requires k <= |es|
  {
    && i < k && Nudges(es, i) && !RestartsBetween(es, i, k)
    && forall j: nat {:trigger Nudges(es, j)} :: i < j < k ==> !Nudges(es, j)
  }

  predicate NoNudgeSinceRestart(es: seq<Event>, k: nat)
    requires k <= |es|
  {
    forall j: nat {:trigger Nudges(es, j)} :: j < k && Nudges(es, j) ==> RestartsBetween(es, j, k)
  }

  ghost predicate RemembersNudge(d: Drift, es: seq<Event>, k: nat)
    requires k <= |es|
  {
    match d.lastNudge
    case None => NoNudgeSinceRestart(es, k)
    case Some(t) => exists i: nat {:trigger LatestNudge(es, i, k)} :: LatestNudge(es, i, k) && es[i].now == t
  }

  lemma RestartsOn(es: seq<Event>, j: nat, k: nat)
    requires j < k < |es|
    ensures RestartsBetween(es, j, k + 1) <==> RestartsBetween(es, j, k) || es[k].Restart?
  {
    if RestartsBetween(es, j, k) {
      var r :| j < r < k && es[r].Restart?;
      assert j < r < k + 1;
    }
  }

  lemma {:induction false} NudgeIsRemembered(es: seq<Event>, k: nat)
    requires k <= |es|
    ensures RemembersNudge(After(es[..k]), es, k)
  {
    if k > 0 {
      var n := k - 1;
      NudgeIsRemembered(es, n);
      AfterStep(es, n);
      if Nudges(es, n) {
        assert LatestNudge(es, n, k);
      } else if es[n].Restart? {
        forall j: nat | j < k && Nudges(es, j) ensures RestartsBetween(es, j, k) {
          assert j < n < k;
        }
      } else {
        NudgeStaysRemembered(es, n);
      }
    }
  }

  lemma NudgeStaysRemembered(es: seq<Event>, n: nat)
    requires n < |es| && !es[n].Restart? && !Nudges(es, n)
    requires RemembersNudge(After(es[..n]), es, n)
    ensures RemembersNudge(After(es[..n]), es, n + 1)
  {
    var d := After(es[..n]);
    if d.lastNudge.Some? {
      var i: nat :| LatestNudge(es, i, n) && es[i].now == d.lastNudge.value;
      RestartsOn(es, i, n);
      assert LatestNudge(es, i, n + 1);
    } else {
      forall j: nat | j < n + 1 && Nudges(es, j) ensures RestartsBetween(es, j, n + 1) {
        RestartsOn(es, j, n);
      }
    }
  }

  // --------------------------------------------------------------------------
  // The rule is met
  // --------------------------------------------------------------------------

  lemma EarlierIsOlder(es: seq<Event>, i: nat, k: nat)
    requires Ordered(es) && i <= k < |es| && es[i].Sample? && es[k].Sample?
    ensures es[i].now <= es[k].now
  {
  }

  /** The dwell test of the compensator is the dwell rule. */
  lemma DwellIsDwelt(es: seq<Event>, k: nat)
    requires Ordered(es) && k < |es| && es[k].Sample?
    ensures
      var d := StartIdle(After(es[..k]), es[k].now);
      Dwelt(es, k) <==> es[k].mag <= IDLE_MAGNITUDE && es[k].now - d.idleSince.value >= IDLE_DWELL
  {
    IdleIsRemembered(es, k);
    var before := After(es[..k]);
    if es[k].mag <= IDLE_MAGNITUDE {
      var s: nat := k;
      if before.idleSince.Some? {
        s :| StretchBegins(es, s, k) && es[s].now == before.idleSince.value;
        StretchGoesOn(es, s, k);
      } else {
        StretchStarts(es, k);
      }
      assert StretchBegins(es, s, k + 1);
      if Dwelt(es, k) {
        var i: nat :| i <= k && DweltSince(es, i, k);
        assert i >= s;
        EarlierIsOlder(es, s, i);
      } else {
        assert !DweltSince(es, s, k);
      }
    } else {
      forall i: nat | i <= k ensures !DweltSince(es, i, k) {
        RestsOn(es, i, k);
      }
    }
  }

  /** The interval test is the rule about all corrections since the last restart. */
  lemma IntervalIsKept(es: seq<Event>, k: nat)
    requires Ordered(es) && k < |es| && es[k].Sample?
    ensures
      var last := After(es[..k]).lastNudge;
      (last.None? || es[k].now - last.value >= MIN_NUDGE_INTERVAL) <==>
        forall j: nat {:trigger Nudges(es, j)} | j < k && Nudges(es, j) && !RestartsBetween(es, j, k) ::
          es[k].now - es[j].now >= MIN_NUDGE_INTERVAL
  {
    NudgeIsRemembered(es, k);
    var d := After(es[..k]);
    if d.lastNudge.Some? {
      var i: nat :| LatestNudge(es, i, k) && es[i].now == d.lastNudge.value;
      assert Nudges(es, i);
      forall j: nat | j < k && Nudges(es, j) ensures es[j].now <= es[i].now {
        assert j <= i;
        EarlierIsOlder(es, j, i);
      }
    }
  }

  /** Over every sequence of events on a clock that never goes back, with any deflections, pauses and
      restarts: the center is corrected exactly where the rule says. */
  lemma {:induction false} NudgesExactlyWhen(es: seq<Event>, k: nat)
    requires Ordered(es) && k < |es|
    ensures Nudges(es, k) <==> ShouldNudge(es, k)
    decreases k
  {
    forall j: nat | j < k ensures Nudges(es, j) <==> ShouldNudge(es, j) {
      NudgesExactlyWhen(es, j);
    }
    if es[k].Sample? {
      DwellIsDwelt(es, k);
      IntervalIsKept(es, k);
      RuleIsTests(es, k);
    }
  }

  lemma RuleIsTests(es: seq<Event>, k: nat)
    requires k < |es| && es[k].Sample?
    requires forall j: nat {:trigger Nudges(es, j)} {:trigger ShouldNudge(es, j)} :: j < k ==> (Nudges(es, j) <==> ShouldNudge(es, j))
    ensures ShouldNudge(es, k) <==>
      && Dwelt(es, k)
      && forall j: nat {:trigger Nudges(es, j)} | j < k && Nudges(es, j) && !RestartsBetween(es, j, k) ::
           es[k].now - es[j].now >= MIN_NUDGE_INTERVAL
  {
  }
}
