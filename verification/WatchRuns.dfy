/** The rollback watch over a whole boot: when it may act, and that it does. */
module WatchRuns {
  import opened HealthModel

  /** What one health check finds: whether the image is still unconfirmed, and the time. */
  datatype Check = Check(pending: bool, now: int)

  function Does(w: Watch, c: Check): Action {
    Tick(w, c.pending, c.now).action
  }

  ghost predicate Follows(w: Watch, c: Check, next: Watch) {
    next == Tick(w, c.pending, c.now).watch
  }

  /** A boot at `start`: one check after the other. */
  ghost predicate IsRun(pending: bool, start: int, ws: seq<Watch>, cs: seq<Check>) {
    && |ws| == |cs| + 1
    && ws[0] == StartWatch(pending, start)
    && forall k :: 0 <= k < |cs| ==> Follows(ws[k], cs[k], ws[k + 1])
  }

  /** The hold went up with check h, past the deadline, with the image still unconfirmed, and nothing
      happened since. */
  ghost predicate HeldSince(start: int, ws: seq<Watch>, cs: seq<Check>, k: nat, h: nat)
    requires k <= |cs| < |ws|
  {
    && h < k && Does(ws[h], cs[h]) == HoldOutput
    && cs[h].pending && cs[h].now - start >= ROLLBACK_DEADLINE
    && (forall j :: h < j < k ==> Does(ws[j], cs[j]) == Nothing)
    && ws[k].holdStart == cs[h].now
  }

  lemma {:induction false} HoldingSince(pending: bool, start: int, ws: seq<Watch>, cs: seq<Check>, k: nat)
    requires IsRun(pending, start, ws, cs) && k <= |cs|
    ensures ws[k].start == start
    ensures ws[k].pending ==> pending
    ensures ws[k].holding ==> pending && !ws[k].pending && exists h: nat :: HeldSince(start, ws, cs, k, h)
  {
    if k > 0 {
      HoldingSince(pending, start, ws, cs, k - 1);
      assert Follows(ws[k - 1], cs[k - 1], ws[k - 1 + 1]);
      if ws[k].holding {
        if ws[k - 1].holding {
          var h: nat :| HeldSince(start, ws, cs, k - 1, h);
          assert HeldSince(start, ws, cs, k, h);
        } else {
          assert HeldSince(start, ws, cs, k, k - 1);
        }
      }
    }
  }

  /** A rollback only ever follows a hold that went up past the deadline, with the image unconfirmed,
      and has been up for the hold time: the host never sees the device vanish mid-deflection. */
  lemma RollbackIsEarned(pending: bool, start: int, ws: seq<Watch>, cs: seq<Check>, k: nat)
    requires IsRun(pending, start, ws, cs) && k < |cs|
    requires Does(ws[k], cs[k]) == RollBack
    ensures pending
    ensures exists h: nat :: HeldSince(start, ws, cs, k, h) && cs[k].now - cs[h].now >= ROLLBACK_HOLD
  {
    HoldingSince(pending, start, ws, cs, k);
  }

  lemma {:induction false} OverIsOver(pending: bool, start: int, ws: seq<Watch>, cs: seq<Check>, k: nat, j: nat)
    requires IsRun(pending, start, ws, cs) && k <= j < |cs|
    requires !ws[k].pending && !ws[k].holding
    ensures !ws[j].pending && !ws[j].holding && Does(ws[j], cs[j]) == Nothing
  {
    if k < j {
      OverIsOver(pending, start, ws, cs, k, j - 1);
      assert Follows(ws[j - 1], cs[j - 1], ws[j - 1 + 1]);
    }
  }

  /** Once a check has found the image confirmed, or a rollback was asked for, the watch is done. */
  lemma ActsNoMore(pending: bool, start: int, ws: seq<Watch>, cs: seq<Check>, k: nat, j: nat)
    requires IsRun(pending, start, ws, cs) && k < j < |cs|
    requires
      || Does(ws[k], cs[k]) == RollBack
      || (!ws[k].holding && !cs[k].pending && cs[k].now - ws[k].lastCheck >= CHECK_INTERVAL)
    ensures Does(ws[j], cs[j]) == Nothing
  {
    HoldingSince(pending, start, ws, cs, k);
    assert Follows(ws[k], cs[k], ws[k + 1]);
    OverIsOver(pending, start, ws, cs, k + 1, j);
  }

  lemma {:induction false} StillWatching(start: int, ws: seq<Watch>, cs: seq<Check>, k: nat)
    requires IsRun(true, start, ws, cs) && k <= |cs|
    requires forall j :: 0 <= j < k ==> cs[j].pending && Does(ws[j], cs[j]) != HoldOutput
    ensures ws[k].pending && !ws[k].holding && ws[k].start == start
    ensures ws[k].lastCheck < start + ROLLBACK_DEADLINE
  {
    if k > 0 {
      StillWatching(start, ws, cs, k - 1);
      assert Follows(ws[k - 1], cs[k - 1], ws[k - 1 + 1]);
    }
  }

  /** An image nobody confirms does not escape: by the first check an interval past the deadline the
      hold has gone up, and the first check a hold time later rolls back. */
  lemma HoldGoesUp(start: int, ws: seq<Watch>, cs: seq<Check>, k: nat)
    requires IsRun(true, start, ws, cs) && k < |cs|
    requires forall j :: 0 <= j <= k ==> cs[j].pending
    requires cs[k].now >= start + ROLLBACK_DEADLINE + CHECK_INTERVAL
    ensures exists h :: 0 <= h <= k && Does(ws[h], cs[h]) == HoldOutput
  {
    if forall j :: 0 <= j < k ==> Does(ws[j], cs[j]) != HoldOutput {
      StillWatching(start, ws, cs, k);
    }
  }

  lemma {:induction false} RollbackFollows(start: int, ws: seq<Watch>, cs: seq<Check>, h: nat, k: nat)
    requires IsRun(true, start, ws, cs) && h < k < |cs|
    requires Does(ws[h], cs[h]) == HoldOutput
    requires cs[k].now - cs[h].now >= ROLLBACK_HOLD
    requires forall j :: h < j < k ==> cs[j].now - cs[h].now < ROLLBACK_HOLD
    ensures Does(ws[k], cs[k]) == RollBack
  {
    HoldsUntil(start, ws, cs, h, k);
  }

  lemma {:induction false} HoldsUntil(start: int, ws: seq<Watch>, cs: seq<Check>, h: nat, k: nat)
    requires IsRun(true, start, ws, cs) && h < k <= |cs|
    requires Does(ws[h], cs[h]) == HoldOutput
    requires forall j :: h < j < k ==> cs[j].now - cs[h].now < ROLLBACK_HOLD
    ensures ws[k].holding && ws[k].holdStart == cs[h].now
  {
    assert Follows(ws[k - 1], cs[k - 1], ws[k - 1 + 1]);
    if h < k - 1 {
      HoldsUntil(start, ws, cs, h, k - 1);
    }
  }

  // --------------------------------------------------------------------------
  // Told from the checks alone
  // --------------------------------------------------------------------------

  /** The time of the latest check before check k that was due; the boot counts as one. */
  function LastDue(start: int, cs: seq<Check>, k: nat): int
    requires k <= |cs|
    decreases k, 0
  {
    if k == 0 then start else if Due(start, cs, k - 1) then cs[k - 1].now else LastDue(start, cs, k - 1)
  }

  /** Check k looks at the image: it comes an interval after the last one that did. */
  predicate Due(start: int, cs: seq<Check>, k: nat)
    requires k < |cs|
    decreases k, 1
  {
    cs[k].now - LastDue(start, cs, k) >= CHECK_INTERVAL
  }

  /** No check before check k settled it: those that were due found the image unconfirmed, before the deadline. */
  predicate Unsettled(start: int, cs: seq<Check>, k: nat)
    requires k <= |cs|
  {
    forall j {:trigger cs[j]} :: 0 <= j < k && Due(start, cs, j) ==> cs[j].pending && cs[j].now - start < ROLLBACK_DEADLINE
  }

  /** Check k is the first due one past the deadline, and has only ever been preceded by an unconfirmed image. */
  predicate HoldDue(pending: bool, start: int, cs: seq<Check>, k: nat)
    requires k < |cs|
  {
    && pending && Unsettled(start, cs, k)
    && Due(start, cs, k) && cs[k].pending && cs[k].now - start >= ROLLBACK_DEADLINE
  }

  lemma {:induction false} WatchesWhileUnsettled(pending: bool, start: int, ws: seq<Watch>, cs: seq<Check>, k: nat)
    requires IsRun(pending, start, ws, cs) && k <= |cs|
    ensures ws[k].pending <==> pending && Unsettled(start, cs, k)
    ensures ws[k].pending ==> ws[k].lastCheck == LastDue(start, cs, k)
    ensures ws[k].start == start && (ws[k].pending ==> !ws[k].holding)
  {
    if k > 0 {
      WatchesWhileUnsettled(pending, start, ws, cs, k - 1);
      HoldingSince(pending, start, ws, cs, k - 1);
      assert Follows(ws[k - 1], cs[k - 1], ws[k - 1 + 1]);
      var last := cs[k - 1];
      assert Unsettled(start, cs, k) <==>
             && Unsettled(start, cs, k - 1)
             && (Due(start, cs, k - 1) ==> last.pending && last.now - start < ROLLBACK_DEADLINE);
    }
  }

  /** The hold goes up with exactly that check. */
  lemma HoldsExactlyWhen(pending: bool, start: int, ws: seq<Watch>, cs: seq<Check>, k: nat)
    requires IsRun(pending, start, ws, cs) && k < |cs|
    ensures Does(ws[k], cs[k]) == HoldOutput <==> HoldDue(pending, start, cs, k)
  {
    WatchesWhileUnsettled(pending, start, ws, cs, k);
    HoldingSince(pending, start, ws, cs, k);
  }

  /** Check k is the first one a hold time after the check that put the hold up. */
  predicate RollbackDue(pending: bool, start: int, cs: seq<Check>, h: nat, k: nat)
    requires k < |cs|
  {
    && h < k && HoldDue(pending, start, cs, h)
    && cs[k].now - cs[h].now >= ROLLBACK_HOLD
    && forall j :: h < j < k ==> cs[j].now - cs[h].now < ROLLBACK_HOLD
  }

  lemma {:induction false} HeldMeansEarly(pending: bool, start: int, ws: seq<Watch>, cs: seq<Check>, h: nat, k: nat, j: nat)
    requires IsRun(pending, start, ws, cs) && k < |cs| && HeldSince(start, ws, cs, k, h) && h < j < k
    ensures ws[j].holding && ws[j].holdStart == cs[h].now && cs[j].now - cs[h].now < ROLLBACK_HOLD
  {
    assert Follows(ws[j - 1], cs[j - 1], ws[j - 1 + 1]);
    if h < j - 1 {
      HeldMeansEarly(pending, start, ws, cs, h, k, j - 1);
    }
    assert Does(ws[j], cs[j]) == Nothing;
  }

  /** And the rollback is asked for with exactly the first check a hold time later. */
  lemma RollsBackExactlyWhen(pending: bool, start: int, ws: seq<Watch>, cs: seq<Check>, k: nat)
    requires IsRun(pending, start, ws, cs) && k < |cs|
    ensures Does(ws[k], cs[k]) == RollBack <==> exists h: nat :: RollbackDue(pending, start, cs, h, k)
  {
    if Does(ws[k], cs[k]) == RollBack {
      RollbackIsEarned(pending, start, ws, cs, k);
      var h: nat :| HeldSince(start, ws, cs, k, h) && cs[k].now - cs[h].now >= ROLLBACK_HOLD;
      HoldsExactlyWhen(pending, start, ws, cs, h);
      forall j | h < j < k ensures cs[j].now - cs[h].now < ROLLBACK_HOLD {
        HeldMeansEarly(pending, start, ws, cs, h, k, j);
      }
      assert RollbackDue(pending, start, cs, h, k);
    }
    if h: nat :| RollbackDue(pending, start, cs, h, k) {
      HoldsExactlyWhen(pending, start, ws, cs, h);
      RollbackFollows(start, ws, cs, h, k);
    }
  }
}
