/**
 What a crash-loop decision says about a device's whole history. The decision is taken on the
 reset log, and the log can miss boots: a save can fail or be cut short, a load can fail.
 */
module CrashHistory {
  import opened Options
  import opened Seqs
  import opened CrashLog
  import opened ResetLogFiles
  import opened ResetLogText
  import FlashModel
  import H = HealthModel

  const MAX_ENTRIES: nat := 16

  /** What became of the log at a boot: whether it could be read, and whether it was saved. */
  datatype LogUse = LogUse(opens: bool, kept: bool)

  // --------------------------------------------------------------------------
  // Which boots the log tells of
  // --------------------------------------------------------------------------

  /** The boots on file after these boots, by their place in the history. */
  function Known(logged: seq<LogUse>): (boots: seq<nat>)
    ensures Ascending(boots, |logged|) && |boots| <= |logged|
    decreases |logged|, 0
  {
    if logged == [] then []
    else
      var last := |logged| - 1;
      if logged[last].kept then Seen(logged[..last], logged[last].opens) else Known(logged[..last])
  }

  /** The boots the next boot decides on: those on file, if it can read them, and itself. */
  function Seen(logged: seq<LogUse>, opens: bool): (boots: seq<nat>)
    ensures Ascending(boots, |logged| + 1) && boots != [] && boots[|boots| - 1] == |logged|
    ensures |boots| <= MAX_ENTRIES && |boots| <= |logged| + 1
    decreases |logged|, 1
  {
    Newest((if opens then Known(logged) else []) + [|logged|], MAX_ENTRIES)
  }

  predicate Ascending(boots: seq<nat>, n: nat) {
    && (forall i :: 0 <= i < |boots| ==> boots[i] < n)
    && (forall i, j :: 0 <= i < j < |boots| ==> boots[i] < boots[j])
  }

  /** No boot is missing between two that the log tells of. */
  predicate Gapless(boots: seq<nat>) {
    forall i :: 0 <= i < |boots| - 1 ==> boots[i + 1] == boots[i] + 1
  }

  /** The records of the boots at these places. */
  function Pick(history: seq<BootRecord>, places: seq<nat>): seq<BootRecord>
    requires Ascending(places, |history|)
  {
    seq(|places|, k requires 0 <= k < |places| => history[places[k]])
  }

  // --------------------------------------------------------------------------
  // When a decision on the log is justified
  // --------------------------------------------------------------------------

  /** Whatever happened at these boots, the log only calls a crash loop when the last runs of the slot, in
      the whole history, did all end in crashes. */
  ghost predicate Justified(logged: seq<LogUse>, opens: bool) {
    forall history: seq<BootRecord>, slot: string |
      |history| == |logged| + 1 && H.CrashLooping(Crashes(Pick(history, Seen(logged, opens)), slot), H.CRASH_LOOP_RESETS) ::
      LastRunsCrashed(history, slot, H.CRASH_LOOP_RESETS)
  }

  lemma {:induction false} GaplessPlaces(boots: seq<nat>, k: nat)
    requires Gapless(boots) && k < |boots|
    ensures boots[k] == boots[|boots| - 1] - (|boots| - 1 - k)
    decreases |boots| - k
  {
    if k < |boots| - 1 {
      GaplessPlaces(boots, k + 1);
    }
  }

  lemma GaplessIsNewest(history: seq<BootRecord>, boots: seq<nat>)
    requires Ascending(boots, |history|) && Gapless(boots)
    requires boots != [] && boots[|boots| - 1] == |history| - 1
    ensures |boots| <= |history| && Pick(history, boots) == Newest(history, |boots|)
  {
    GaplessPlaces(boots, 0);
    forall k | 0 <= k < |boots| ensures boots[k] == |history| - |boots| + k {
      GaplessPlaces(boots, k);
    }
  }

  lemma {:induction false} CrashesAreFew(boots: seq<BootRecord>, slot: string, runs: set<nat>)
    requires forall p: nat | p < |boots| - 1 && boots[p].slot == slot :: p in runs
    ensures |Crashes(boots, slot)| <= |runs|
    decreases |boots|
  {
    if |boots| > 1 {
      var last := |boots| - 1;
      if boots[last - 1].slot == slot {
        CrashesAreFew(boots[..last], slot, runs - {last - 1});
      } else {
        CrashesAreFew(boots[..last], slot, runs);
      }
    }
  }

  lemma {:induction false} FewerThanBoots(boots: seq<BootRecord>, slot: string)
    ensures |Crashes(boots, slot)| <= if boots == [] then 0 else |boots| - 1
    decreases |boots|
  {
    if |boots| > 1 {
      FewerThanBoots(boots[..|boots| - 1], slot);
    }
  }

  lemma {:induction false} RunIsListed(boots: seq<BootRecord>, slot: string, p: nat)
    requires p + 1 < |boots| && boots[p].slot == slot
    ensures boots[p + 1].crash in Crashes(boots, slot)
    decreases |boots|
  {
    var last := |boots| - 1;
    if p + 1 < last {
      RunIsListed(boots[..last], slot, p);
    } else {
      var before := Crashes(boots[..last], slot);
      assert Crashes(boots, slot)[|before|] == boots[last].crash;
    }
  }

  lemma {:induction false} AllCrashed(boots: seq<BootRecord>, slot: string)
    requires forall k :: 0 < k < |boots| ==> boots[k].crash
    ensures forall i :: 0 <= i < |Crashes(boots, slot)| ==> Crashes(boots, slot)[i]
    decreases |boots|
  {
    if |boots| > 1 {
      AllCrashed(boots[..|boots| - 1], slot);
    }
  }

  lemma {:induction false} CrashesGrow(boots: seq<BootRecord>, slot: string, m: nat)
    requires m <= |boots|
    ensures |Crashes(boots[..m], slot)| <= |Crashes(boots, slot)|
    decreases |boots|
  {
    if m < |boots| {
      var last := |boots| - 1;
      assert boots[..last][..m] == boots[..m];
      CrashesGrow(boots[..last], slot, m);
    } else {
      assert boots[..m] == boots;
    }
  }

  lemma RunCounts(boots: seq<BootRecord>, slot: string, p: nat)
    requires p + 1 < |boots| && boots[p].slot == slot
    ensures |Crashes(boots[..p + 2], slot)| == |Crashes(boots[..p + 1], slot)| + 1
  {
    assert boots[..p + 2][..p + 1] == boots[..p + 1];
  }

  /** Three runs in a row are three entries. */
  lemma ThreeRuns(boots: seq<BootRecord>, slot: string, j: nat)
    requires j + 3 < |boots|
    requires boots[j].slot == slot && boots[j + 1].slot == slot && boots[j + 2].slot == slot
    ensures |Crashes(boots, slot)| >= 3
  {
    RunCounts(boots, slot, j);
    RunCounts(boots, slot, j + 1);
    RunCounts(boots, slot, j + 2);
    CrashesGrow(boots, slot, j + 4);
  }

  const HERE: string := "ota_0"
  const THERE: string := "ota_1"

  /** A history in which only the boots at three places ran in this slot, and exactly the boots the log
      tells of began with a crash. */
  function Unseen(n: nat, seen: seq<nat>, j: nat): seq<BootRecord>
    requires j + 3 < |seen|
  {
    seq(n, p => BootRecord(if p in {seen[j], seen[j + 1], seen[j + 2]} then HERE else THERE, p in seen))
  }

  lemma LogCallsLoop(n: nat, seen: seq<nat>, j: nat)
    requires Ascending(seen, n) && j + 3 < |seen|
    ensures H.CrashLooping(Crashes(Pick(Unseen(n, seen, j), seen), HERE), 3)
  {
    var log := Pick(Unseen(n, seen, j), seen);
    AllCrashed(log, HERE);
    ThreeRuns(log, HERE, j);
  }

  lemma HistoryHasNoLoop(n: nat, seen: seq<nat>, j: nat, i: nat)
    requires Ascending(seen, n) && j + 3 < |seen|
    requires j <= i < j + 3 && seen[i + 1] != seen[i] + 1
    ensures !LastRunsCrashed(Unseen(n, seen, j), HERE, 3)
  {
    var history := Unseen(n, seen, j);
    var runs := {seen[j], seen[j + 1], seen[j + 2]};
    var p := seen[i];
    assert p in runs && p + 1 < seen[i + 1];
    assert p + 1 !in seen by {
      forall k | 0 <= k < |seen| ensures seen[k] != p + 1 {
        if k <= i {
          assert seen[k] <= seen[i];
        } else {
          assert seen[i + 1] <= seen[k];
        }
      }
    }
    assert history[p].slot == HERE && !history[p + 1].crash;
    RunIsListed(history, HERE, p);
    CrashesAreFew(history, HERE, runs);
    assert |runs| <= 3;
    CrashLoopingMeansLastRunsCrashed(history, HERE, 3);
  }

  /** A gap among at least four boots can mislead. */
  lemma GapMisleads(logged: seq<LogUse>, opens: bool, i: nat)
    requires
      var seen := Seen(logged, opens);
      |seen| >= 4 && i < |seen| - 1 && seen[i + 1] != seen[i] + 1
    ensures !Justified(logged, opens)
  {
    var seen := Seen(logged, opens);
    var n := |logged| + 1;
    var j := if i + 3 < |seen| then i else |seen| - 4;
    LogCallsLoop(n, seen, j);
    HistoryHasNoLoop(n, seen, j, i);
    assert |Unseen(n, seen, j)| == n;
  }

  /** The decision on a log without gaps is the decision on the whole history. */
  lemma GaplessDecides(logged: seq<LogUse>, opens: bool, history: seq<BootRecord>, slot: string, n: nat)
    requires Gapless(Seen(logged, opens)) && |history| == |logged| + 1 && n > 0
    ensures
      var crashes := Crashes(Pick(history, Seen(logged, opens)), slot);
      H.CrashLooping(crashes, n) <==> |crashes| >= n && LastRunsCrashed(history, slot, n)
  {
    var seen := Seen(logged, opens);
    GaplessIsNewest(history, seen);
    NewestDecide(history, |seen|, slot, n);
  }

  lemma FewBootsJustify(logged: seq<LogUse>, opens: bool)
    requires |Seen(logged, opens)| < 4
    ensures Justified(logged, opens)
  {
    forall history: seq<BootRecord>, slot: string | |history| == |logged| + 1
      ensures !H.CrashLooping(Crashes(Pick(history, Seen(logged, opens)), slot), H.CRASH_LOOP_RESETS)
    {
      FewerThanBoots(Pick(history, Seen(logged, opens)), slot);
    }
  }

  lemma GaplessJustifies(logged: seq<LogUse>, opens: bool)
    requires Gapless(Seen(logged, opens))
    ensures Justified(logged, opens)
  {
    forall history: seq<BootRecord>, slot: string |
      |history| == |logged| + 1 && H.CrashLooping(Crashes(Pick(history, Seen(logged, opens)), slot), H.CRASH_LOOP_RESETS)
      ensures LastRunsCrashed(history, slot, H.CRASH_LOOP_RESETS)
    {
      GaplessDecides(logged, opens, history, slot, H.CRASH_LOOP_RESETS);
    }
  }

  /** Decisions are justified, whatever happened, exactly when the log misses no boot between those it tells
      of, or tells of too few to ever call a crash loop. */
  lemma JustifiedExactlyWhen(logged: seq<LogUse>, opens: bool)
    ensures Justified(logged, opens) <==> |Seen(logged, opens)| < 4 || Gapless(Seen(logged, opens))
  {
    var seen := Seen(logged, opens);
    if |seen| < 4 {
      FewBootsJustify(logged, opens);
    } else if Gapless(seen) {
      GaplessJustifies(logged, opens);
    } else {
      var i :| 0 <= i < |seen| - 1 && seen[i + 1] != seen[i] + 1;
      GapMisleads(logged, opens, i);
    }
  }

  // --------------------------------------------------------------------------
  // Boots that leave no gap
  // --------------------------------------------------------------------------

  /** The last `m` boots each read the log and saved it. */
  predicate KeptSince(logged: seq<LogUse>, m: nat) {
    m <= |logged| && forall i :: |logged| - m <= i < |logged| ==> logged[i].opens && logged[i].kept
  }

  /** A list that ends by counting up to `n` in m steps of one. */
  predicate CountsUp(places: seq<nat>, m: nat, n: nat) {
    m < |places| && forall i :: |places| - 1 - m <= i < |places| ==> places[i] == n - (|places| - 1 - i)
  }

  lemma CountsOn(places: seq<nat>, m: nat, n: nat)
    requires CountsUp(places, m, n) && m + 1 < MAX_ENTRIES
    ensures CountsUp(Newest(places + [n + 1], MAX_ENTRIES), m + 1, n + 1)
  {
  }

  lemma {:induction false} RecentAreKnown(logged: seq<LogUse>, m: nat)
    requires KeptSince(logged, m) && m < MAX_ENTRIES
    ensures CountsUp(Seen(logged, true), m, |logged|)
    decreases |logged|
  {
    if m > 0 {
      var last := |logged| - 1;
      RecentAreKnown(logged[..last], m - 1);
      CountsOn(Seen(logged[..last], true), m - 1, last);
    }
  }

  lemma CountsWhole(places: seq<nat>, m: nat, n: nat)
    requires CountsUp(places, m, n) && Ascending(places, n + 1)
    requires m == n || |places| == m + 1
    ensures Gapless(places)
  {
    var first := |places| - 1 - m;
    assert places[first] == n - m;
    assert first > 0 ==> places[0] < places[first];
  }

  /** When the last fifteen boots, or all there were, read the log and saved it, so that this one can read it
      too, no boot is missing. */
  lemma KeptLeavesNoGap(logged: seq<LogUse>)
    requires KeptSince(logged, if |logged| < MAX_ENTRIES then |logged| else MAX_ENTRIES - 1)
    ensures Gapless(Seen(logged, true)) && Justified(logged, true)
  {
    var m := if |logged| < MAX_ENTRIES then |logged| else MAX_ENTRIES - 1;
    RecentAreKnown(logged, m);
    CountsWhole(Seen(logged, true), m, |logged|);
    JustifiedExactlyWhen(logged, true);
  }

  // --------------------------------------------------------------------------
  // The log on the device
  // --------------------------------------------------------------------------

  /** A log entry as the crash-loop check sees it; `isCrash` says which reset reasons are crashes. */
  function RecordOf(r: ResetInfo, isCrash: int -> bool): BootRecord {
    BootRecord(r.slot, isCrash(r.reason))
  }

  function RecordsOf(entries: seq<Entry>, isCrash: int -> bool): seq<BootRecord> {
    seq(|entries|, k requires 0 <= k < |entries| => BootRecord(entries[k].slot, isCrash(entries[k].reason)))
  }

  /** The history of a sequence of boots. */
  function HistoryOf(boots: seq<BootRun>, isCrash: int -> bool): seq<BootRecord> {
    seq(|boots|, k requires 0 <= k < |boots| => RecordOf(boots[k].reset, isCrash))
  }

  /** What became of the log at each boot. */
  function LoggedAs(boots: seq<BootRun>, kept: seq<bool>): seq<LogUse>
    requires |boots| == |kept|
  {
    seq(|boots|, k requires 0 <= k < |boots| => LogUse(boots[k].opens, kept[k]))
  }

  /** The log on file is what a history of boots left there. */
  predicate Tells(log: Log, history: seq<BootRecord>, logged: seq<LogUse>, isCrash: int -> bool) {
    |history| == |logged| && RecordsOf(log.entries, isCrash) == Pick(history, Known(logged))
  }

  /** What a boot decides on, given what it could read. */
  lemma BootSees(log: Log, history: seq<BootRecord>, logged: seq<LogUse>, opens: bool, r: ResetInfo, isCrash: int -> bool)
    requires Tells(log, history, logged, isCrash)
    ensures
      RecordsOf(Recorded(if opens then log else EMPTY_LOG, r, MAX_ENTRIES).entries, isCrash)
        == Pick(history + [RecordOf(r, isCrash)], Seen(logged, opens))
  {
    var read := if opens then log else EMPTY_LOG;
    var places := if opens then Known(logged) else [];
    RecordingRecords(read, history, places, r, isCrash);
  }

  lemma RecordingRecords(log: Log, history: seq<BootRecord>, places: seq<nat>, r: ResetInfo, isCrash: int -> bool)
    requires Ascending(places, |history|) && RecordsOf(log.entries, isCrash) == Pick(history, places)
    ensures Ascending(Newest(places + [|history|], MAX_ENTRIES), |history| + 1)
    ensures
      RecordsOf(Recorded(log, r, MAX_ENTRIES).entries, isCrash) ==
        Pick(history + [RecordOf(r, isCrash)], Newest(places + [|history|], MAX_ENTRIES))
  {
    var boot := (log.bootCount + 1) % (UINT32_MAX + 1);
    var e := Entry(boot, r.reason, r.abnormal, r.name, r.slot);
    RecordAppends(log.entries, e, history, places, isCrash);
    NewestRecords(log.entries + [e], history + [RecordOf(r, isCrash)], places + [|history|], isCrash);
  }

  lemma RecordAppends(entries: seq<Entry>, e: Entry, history: seq<BootRecord>, places: seq<nat>, isCrash: int -> bool)
    requires Ascending(places, |history|) && RecordsOf(entries, isCrash) == Pick(history, places)
    ensures Ascending(places + [|history|], |history| + 1)
    ensures
      RecordsOf(entries + [e], isCrash) ==
        Pick(history + [BootRecord(e.slot, isCrash(e.reason))], places + [|history|])
  {
    assert |entries| == |RecordsOf(entries, isCrash)| == |places|;
    forall k | 0 <= k < |places| ensures RecordsOf(entries + [e], isCrash)[k] == history[places[k]] {
      assert RecordsOf(entries, isCrash)[k] == Pick(history, places)[k];
    }
  }

  lemma NewestRecords(entries: seq<Entry>, history: seq<BootRecord>, places: seq<nat>, isCrash: int -> bool)
    requires Ascending(places, |history|) && RecordsOf(entries, isCrash) == Pick(history, places)
    ensures Ascending(Newest(places, MAX_ENTRIES), |history|)
    ensures RecordsOf(Newest(entries, MAX_ENTRIES), isCrash) == Pick(history, Newest(places, MAX_ENTRIES))
  {
    assert |entries| == |RecordsOf(entries, isCrash)| == |places|;
    forall k | 0 <= k < |entries| ensures BootRecord(entries[k].slot, isCrash(entries[k].reason)) == history[places[k]] {
      assert RecordsOf(entries, isCrash)[k] == Pick(history, places)[k];
    }
  }

  lemma BootTells(log: Log, history: seq<BootRecord>, logged: seq<LogUse>, b: BootRun, kept: bool, isCrash: int -> bool)
    requires Tells(log, history, logged, isCrash)
    ensures Tells(if kept then Extended(log, b, MAX_ENTRIES) else log, history + [RecordOf(b.reset, isCrash)],
                  logged + [LogUse(b.opens, kept)], isCrash)
  {
    BootSees(log, history, logged, b.opens, b.reset, isCrash);
    assert (logged + [LogUse(b.opens, kept)])[..|logged|] == logged;
  }

  lemma {:induction false} ReplayTells(log: Log, history: seq<BootRecord>, logged: seq<LogUse>, boots: seq<BootRun>,
                                       kept: seq<bool>, isCrash: int -> bool)
    requires Tells(log, history, logged, isCrash) && |boots| == |kept|
    ensures Tells(Replay(log, boots, kept, MAX_ENTRIES), history + HistoryOf(boots, isCrash),
                  logged + LoggedAs(boots, kept), isCrash)
    decreases |boots|
  {
    if boots == [] {
      assert history + HistoryOf(boots, isCrash) == history;
      assert logged + LoggedAs(boots, kept) == logged;
    } else {
      var first := RecordOf(boots[0].reset, isCrash);
      BootTells(log, history, logged, boots[0], kept[0], isCrash);
      ReplayTells(if kept[0] then Extended(log, boots[0], MAX_ENTRIES) else log, history + [first],
                  logged + [LogUse(boots[0].opens, kept[0])], boots[1..], kept[1..], isCrash);
      assert history + [first] + HistoryOf(boots[1..], isCrash) == history + HistoryOf(boots, isCrash);
      assert logged + [LogUse(boots[0].opens, kept[0])] + LoggedAs(boots[1..], kept[1..]) == logged + LoggedAs(boots, kept);
    }
  }

  /** What the crash-loop check of a boot is given. */
  function CrashesAt(f: Files, b: BootRun, isCrash: int -> bool): seq<bool> {
    Crashes(RecordsOf(Recorded(Loaded(f, b, MAX_ENTRIES), b.reset, MAX_ENTRIES).entries, isCrash), b.reset.slot)
  }

  /**
   A device whose log tells of its history so far goes through any boots, with power loss and failing file
   operations at any point, and then boots once more. A handover of that boot is justified by the whole
   history whenever the log has no gap; and the boots that were not disturbed are not missing from it.
   */
  lemma HandoverIsJustified(f: Files, log: Log, history: seq<BootRecord>, logged: seq<LogUse>, boots: seq<BootRun>,
                            last: BootRun, isCrash: int -> bool, flash: FlashModel.Flash, marker: nat, powerOn: bool)
    returns (kept: seq<bool>)
    requires Holds(f, log, MAX_ENTRIES) && Tells(log, history, logged, isCrash)
    requires forall i :: 0 <= i < |boots| ==> GoodReset(boots[i].reset)
    requires NeverStuck(f, boots, MAX_ENTRIES)
    ensures |kept| == |boots|
    ensures forall i :: 0 <= i < |boots| && boots[i].cut.None? && Saves(boots[i].faults) ==> kept[i]
    ensures
      var now := AfterBoots(f, boots, MAX_ENTRIES);
      var all := history + HistoryOf(boots, isCrash) + [RecordOf(last.reset, isCrash)];
      var seen := Seen(logged + LoggedAs(boots, kept), Loads(now, last));
      && CrashesAt(now, last, isCrash) == Crashes(Pick(all, seen), last.reset.slot)
      && (Gapless(seen) && H.BootDevice(flash, marker, powerOn, CrashesAt(now, last, isCrash)).handedOver ==>
            LastRunsCrashed(all, last.reset.slot, H.CRASH_LOOP_RESETS))
  {
    kept := HistorySurvives(f, log, boots, MAX_ENTRIES);
    ReplayTells(log, history, logged, boots, kept, isCrash);
    var now := AfterBoots(f, boots, MAX_ENTRIES);
    var earlier := history + HistoryOf(boots, isCrash);
    var all := earlier + [RecordOf(last.reset, isCrash)];
    var flags := logged + LoggedAs(boots, kept);
    var opens := Loads(now, last);
    BootSees(Replay(log, boots, kept, MAX_ENTRIES), earlier, flags, opens, last.reset, isCrash);
    if Gapless(Seen(flags, opens)) {
      GaplessDecides(flags, opens, all, last.reset.slot, H.CRASH_LOOP_RESETS);
    }
  }

  // --------------------------------------------------------------------------
  // A handover that the history does not justify
  // --------------------------------------------------------------------------

  /** Six boots, of which the save of the fourth fails: the one of the other slot. */
  const LOST_FOURTH: seq<LogUse> :=
    [LogUse(true, true), LogUse(true, true), LogUse(true, true), LogUse(true, false), LogUse(true, true)]

  const SIX_BOOTS: seq<BootRecord> :=
    [BootRecord(HERE, false), BootRecord(HERE, true), BootRecord(HERE, true), BootRecord(THERE, false),
     BootRecord(HERE, true), BootRecord(HERE, true)]

  /** One more boot that could read the log. */
  lemma KnownStep(logged: seq<LogUse>, k: nat)
    requires k < |logged| && logged[k].opens && |Known(logged[..k])| < MAX_ENTRIES
    ensures Known(logged[..k + 1]) == Known(logged[..k]) + if logged[k].kept then [k] else []
  {
    assert logged[..k + 1][..k] == logged[..k];
  }

  lemma FirstThreeKnown()
    ensures Known(LOST_FOURTH[..3]) == [0, 1, 2]
  {
    var l := LOST_FOURTH;
    assert l[..0] == [];
    KnownStep(l, 0);
    assert Known(l[..1]) == [0];
    KnownStep(l, 1);
    assert Known(l[..2]) == [0, 1];
    KnownStep(l, 2);
  }

  lemma LostFourthKnown()
    ensures Known(LOST_FOURTH[..5]) == [0, 1, 2, 4]
  {
    var l := LOST_FOURTH;
    FirstThreeKnown();
    KnownStep(l, 3);
    assert Known(l[..4]) == [0, 1, 2];
    KnownStep(l, 4);
  }

  lemma LostFourthSees()
    ensures Seen(LOST_FOURTH, true) == [0, 1, 2, 4, 5]
  {
    var l := LOST_FOURTH;
    LostFourthKnown();
    assert l[..5] == l;
  }

  lemma LostFourthHasNoLoop()
    ensures !LastRunsCrashed(SIX_BOOTS, HERE, H.CRASH_LOOP_RESETS)
  {
    var five, four := SIX_BOOTS[..5], SIX_BOOTS[..4];
    assert five[..4] == four;
    assert !LastRunsCrashed(four, HERE, 2);
    assert !LastRunsCrashed(five, HERE, 2);
  }

  /** The run of the missing boot crashed, and is charged to the run before it, which did not: the device is
      handed over although the last three runs of this slot did not all crash. */
  lemma LostBootMisleads(flash: FlashModel.Flash)
    requires H.CanTakeOver(FlashModel.Boot(flash))
    ensures
      var seen := Seen(LOST_FOURTH, true);
      && Ascending(seen, 6)
      && H.BootDevice(flash, 0, false, Crashes(Pick(SIX_BOOTS, seen), HERE)).handedOver
      && !LastRunsCrashed(SIX_BOOTS, HERE, H.CRASH_LOOP_RESETS)
  {
    LostFourthSees();
    var log := Pick(SIX_BOOTS, [0, 1, 2, 4, 5]);
    AllCrashed(log, HERE);
    ThreeRuns(log, HERE, 0);
    LostFourthHasNoLoop();
  }
}
