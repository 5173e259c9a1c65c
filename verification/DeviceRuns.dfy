/**
 A device from the factory on, with its flash and its reset log together: what the log makes the
 crash-loop check decide, and what really happened to the slots in that same run.
 */
module DeviceRuns {
  import opened Bytes
  import opened Options
  import opened FlashModel
  import opened OtaModel
  import opened ServiceModel
  import opened UpdateSystem
  import opened CrashLog
  import opened CrashHistory
  import H = HealthModel

  /** The device, what ran at each of its boots, and what became of the reset log there. */
  datatype Device = Device(system: System, history: seq<BootRecord>, logged: seq<LogUse>)

  /** A step of the running device; a boot, begun by a crash or not; or a boot that is cut short. */
  datatype Event =
    | Goes(step: Step)
    | Boots(powerOn: bool, crash: bool, use: LogUse, now: int)
    | Dies(crash: bool, use: LogUse)

  function Label(slot: nat): string {
    if slot == 0 then HERE else THERE
  }

  /** What a boot of this device would log about itself. */
  function NextRecord(d: Device, crash: bool): BootRecord {
    BootRecord(Label(Boot(d.system.engine.flash).running), crash)
  }

  predicate Tallies(d: Device) {
    WellFormed(d.system) && |d.history| == |d.logged|
  }

  /** The crashes of its slot that a boot reads off the log. */
  function CrashesRead(d: Device, crash: bool, opens: bool): seq<bool>
    requires Tallies(d)
  {
    var r := NextRecord(d, crash);
    Crashes(Pick(d.history + [r], Seen(d.logged, opens)), r.slot)
  }

  predicate Can(d: Device, e: Event) {
    Tallies(d) && (e.Goes? ==> !StartsOver(e.step) && Enabled(d.system, e.step))
  }

  function Go(d: Device, e: Event): Device
    requires Can(d, e)
  {
    match e
    case Goes(step) => d.(system := Next(d.system, step))
    case Boots(powerOn, crash, use, now) =>
      Device(Next(d.system, Reset(powerOn, CrashesRead(d, crash, use.opens), now)),
             d.history + [NextRecord(d, crash)], d.logged + [use])
    case Dies(crash, use) =>
      Device(Next(d.system, CutBoot), d.history + [NextRecord(d, crash)], d.logged + [use])
  }

  function NewDevice(desc: Descriptor, mode: Mode, marker: nat, use: LogUse): Device {
    Device(Factory(desc, mode, marker, 0), [BootRecord(HERE, false)], [use])
  }

  ghost predicate Follows(d: Device, e: Event, next: Device) {
    Can(d, e) && next == Go(d, e)
  }

  ghost predicate IsRun(ds: seq<Device>, es: seq<Event>) {
    && Chained(ds, es)
    && exists desc, mode, marker, use :: ds[0] == NewDevice(desc, mode, marker, use)
  }

  ghost predicate Chained(ds: seq<Device>, es: seq<Event>) {
    |ds| == |es| + 1 && forall k :: 0 <= k < |es| ==> Follows(ds[k], es[k], ds[k + 1])
  }

  // --------------------------------------------------------------------------
  // Every run
  // --------------------------------------------------------------------------

  /** The history names the slot that runs now as the one of the last boot. */
  predicate Truthful(d: Device) {
    && Invariant(d.system) && Tallies(d) && d.history != []
    && d.history[|d.history| - 1].slot == Label(d.system.engine.flash.running)
  }

  lemma NewDeviceIsTruthful(desc: Descriptor, mode: Mode, marker: nat, use: LogUse)
    ensures Truthful(NewDevice(desc, mode, marker, use))
  {
    FactoryInvariant(desc, mode, marker, 0);
  }

  /** Nothing but a boot changes which slot runs. */
  lemma RunningStays(s: System, step: Step)
    requires Invariant(s) && Enabled(s, step) && !StartsOver(step)
    ensures Next(s, step).engine.flash.running == s.engine.flash.running
  {
    if step.Frame? {
      RequestKeepsRunning(ViewOf(s, step.link), step.request, step.now);
    }
  }

  lemma RequestKeepsRunning(v: View, r: Request, now: int)
    ensures Handle(v, r, now).view.engine.flash.running == v.engine.flash.running
  {
  }

  lemma BootRunsWhatIsLogged(s: System, powerOn: bool, crashes: seq<bool>, now: int)
    requires Invariant(s)
    ensures Restarted(s, s.engine.flash, powerOn, crashes, now).engine.flash.running == Boot(s.engine.flash).running
  {
  }

  lemma StepIsTruthful(d: Device, step: Step)
    requires Truthful(d) && Can(d, Goes(step))
    ensures Truthful(Go(d, Goes(step)))
  {
    NextInvariant(d.system, step);
    RunningStays(d.system, step);
  }

  lemma BootIsTruthful(d: Device, powerOn: bool, crash: bool, use: LogUse, now: int)
    requires Truthful(d)
    ensures Truthful(Go(d, Boots(powerOn, crash, use, now)))
  {
    var crashes := CrashesRead(d, crash, use.opens);
    NextInvariant(d.system, Reset(powerOn, crashes, now));
    BootRunsWhatIsLogged(d.system, powerOn, crashes, now);
  }

  lemma EventIsTruthful(d: Device, e: Event)
    requires Truthful(d) && Can(d, e)
    ensures Truthful(Go(d, e))
  {
    match e
    case Goes(step) => StepIsTruthful(d, step);
    case Boots(powerOn, crash, use, now) => BootIsTruthful(d, powerOn, crash, use, now);
    case Dies(_, _) => NextInvariant(d.system, CutBoot);
  }

  /** In every run the history is true: after every event its last boot is the one that is running. */
  lemma {:induction false} HistoryIsTrue(ds: seq<Device>, es: seq<Event>, k: nat)
    requires IsRun(ds, es) && k <= |es|
    ensures Truthful(ds[k])
  {
    if k == 0 {
      var desc, mode, marker, use :| ds[0] == NewDevice(desc, mode, marker, use);
      NewDeviceIsTruthful(desc, mode, marker, use);
    } else {
      HistoryIsTrue(ds, es, k - 1);
      assert Follows(ds[k - 1], es[k - 1], ds[k - 1 + 1]);
      EventIsTruthful(ds[k - 1], es[k - 1]);
    }
  }

  /** This boot could read the log, and the log misses no boot between those it tells of. */
  predicate SeesAll(d: Device, e: Event) {
    e.Boots? && Gapless(Seen(d.logged, e.use.opens))
  }

  /** The last three runs of the slot crashed, the log still tells of three, and a handover is still possible. */
  predicate ShouldHandOver(d: Device, e: Event, t: Device)
    requires Tallies(d) && e.Boots? && Tallies(t)
  {
    && LastRunsCrashed(t.history, Label(t.system.engine.flash.running), H.CRASH_LOOP_RESETS)
    && |CrashesRead(d, e.crash, e.use.opens)| >= H.CRASH_LOOP_RESETS
    && !H.ReadMarker(d.system.marker, e.powerOn).handedOverSincePowerOn
    && H.CanTakeOver(Boot(d.system.engine.flash))
  }

  lemma BootHandsOver(d: Device, e: Event)
    requires Tallies(d) && Invariant(d.system) && SeesAll(d, e)
    ensures Tallies(Go(d, e)) && (Go(d, e).system.restarting <==> ShouldHandOver(d, e, Go(d, e)))
  {
    BootRunsWhatIsLogged(d.system, e.powerOn, CrashesRead(d, e.crash, e.use.opens), e.now);
    var r := NextRecord(d, e.crash);
    GaplessDecides(d.logged, e.use.opens, d.history + [r], r.slot, H.CRASH_LOOP_RESETS);
  }

  /**
   In every run from the factory on, a boot that sees a log without gaps hands the device over if and only
   if the last three completed runs of the slot it boots all crashed, in this device's own history, the log
   still tells of three, no handover happened since power-on, and the other slot can take over.
   */
  lemma HandsOverExactlyWhen(ds: seq<Device>, es: seq<Event>, k: nat)
    requires IsRun(ds, es) && k < |es| && SeesAll(ds[k], es[k])
    ensures Truthful(ds[k]) && Truthful(ds[k + 1])
    ensures ds[k + 1].system.restarting <==> ShouldHandOver(ds[k], es[k], ds[k + 1])
  {
    HistoryIsTrue(ds, es, k);
    HistoryIsTrue(ds, es, k + 1);
    assert Follows(ds[k], es[k], ds[k + 1]);
    BootHandsOver(ds[k], es[k]);
  }

  // --------------------------------------------------------------------------
  // A run that ends in a handover its own history does not justify
  // --------------------------------------------------------------------------

  const SAVED := LogUse(true, true)
  const LOST := LogUse(true, false)

  /** A device that has just booted, without a handover since power-on. */
  function JustBooted(mode: Mode, f: Flash): System {
    System(Idle(f), [FRESH_LINK, FRESH_LINK], 0, H.StartWatch(PendingVerify(f), 0), mode, 0, false, false)
  }

  /** A running device with this flash, without a handover since power-on. */
  predicate RunsWith(d: Device, f: Flash) {
    && Tallies(d) && d.system.engine.flash == f
    && d.system.marker == 0 && !d.system.restarting && !d.system.rollingBack
  }

  lemma PlainBoot(d: Device, f: Flash, crash: bool, use: LogUse)
    requires RunsWith(d, f)
    requires !H.CrashLooping(CrashesRead(d, crash, use.opens), H.CRASH_LOOP_RESETS) || !H.CanTakeOver(Boot(f))
    ensures
      var t := Go(d, Boots(false, crash, use, 0));
      && t == Device(JustBooted(d.system.mode, Boot(f)), d.history + [NextRecord(d, crash)], d.logged + [use])
      && RunsWith(t, Boot(f))
  {
  }

  /** Fewer than three boots before this one are too few for a crash loop. */
  lemma EarlyBoot(d: Device, f: Flash, crash: bool, use: LogUse)
    requires RunsWith(d, f) && |d.logged| < 3
    ensures
      var t := Go(d, Boots(false, crash, use, 0));
      && t == Device(JustBooted(d.system.mode, Boot(f)), d.history + [NextRecord(d, crash)], d.logged + [use])
      && RunsWith(t, Boot(f))
  {
    FewerThanBoots(Pick(d.history + [NextRecord(d, crash)], Seen(d.logged, use.opens)), NextRecord(d, crash).slot);
    PlainBoot(d, f, crash, use);
  }

  lemma Confirmation(d: Device, f: Flash)
    requires RunsWith(d, f)
    ensures
      var t := Go(d, Ask(ConfirmFrame, []));
      RunsWith(t, MarkValid(f)) && t.history == d.history && t.logged == d.logged && t.system.mode == d.system.mode
  {
  }

  function Ask(kind: Kind, payload: Bytes): Event {
    Goes(Frame(0, Request(kind, payload), 0))
  }

  /** The three requests of an upload. */
  lemma UploadRun(d: Device, image: Bytes) returns (ds: seq<Device>, es: seq<Event>)
    requires Tallies(d) && ParseDescriptor(image).Some? && d.system == JustBooted(d.system.mode, d.system.engine.flash)
    requires !PendingVerify(d.system.engine.flash)
    ensures |es| == 3 && Chained(ds, es) && ds[0] == d
    ensures
      var f := d.system.engine.flash;
      && RunsWith(ds[3], WithSlot(f, Other(f), Slot(true, false, ParseDescriptor(image).value, New)).(boot := Other(f)))
      && ds[3].history == d.history && ds[3].logged == d.logged
  {
    es := [Ask(BeginFrame, PutU32(0)), Ask(DataFrame, PutU32(0) + image), Ask(FinishFrame, [])];
    U32RoundTrip(0);
    assert (PutU32(0) + image)[..4] == PutU32(0) && (PutU32(0) + image)[4..] == image;
    assert [] + image == image;
    var begun := Go(d, es[0]);
    var sent := Go(begun, es[1]);
    assert sent.system.engine.image == image && sent.system.links[0].owner;
    ds := [d, begun, sent, Go(sent, es[2])];
  }

  lemma ChainsJoin(ds: seq<Device>, es: seq<Event>, ds': seq<Device>, es': seq<Event>)
    requires Chained(ds, es) && Chained(ds', es') && ds[|es|] == ds'[0]
    ensures Chained(ds + ds'[1..], es + es')
    ensures (ds + ds'[1..])[|es| + |es'|] == ds'[|es'|]
  {
    var all, events := ds + ds'[1..], es + es';
    forall k | 0 <= k < |events| ensures Follows(all[k], events[k], all[k + 1]) {
      if k >= |es| {
        assert Follows(ds'[k - |es|], es'[k - |es|], ds'[k - |es| + 1]);
      } else {
        assert Follows(ds[k], es[k], ds[k + 1]);
      }
    }
  }

  function Slots(here: Slot, there: Slot, running: nat, boot: nat): Flash
    requires running < 2 && boot < 2
  {
    FlashState([here, there], running, boot)
  }

  /** From the factory: two crashes of the first image. */
  lemma TwoCrashes(desc: Descriptor, mode: Mode, marker: nat) returns (ds: seq<Device>, es: seq<Event>)
    ensures Chained(ds, es) && |es| == 2 && ds[0] == NewDevice(desc, mode, marker, SAVED)
    ensures Tallies(ds[2]) && ds[2].system == JustBooted(mode, Slots(Slot(true, false, desc, Valid), EMPTY, 0, 0))
    ensures ds[2].history == SIX_BOOTS[..3] && ds[2].logged == LOST_FOURTH[..3]
  {
    var d := NewDevice(desc, mode, marker, SAVED);
    var f := Slots(Slot(true, false, desc, Valid), EMPTY, 0, 0);
    var crash := Boots(false, true, SAVED, 0);
    assert RunsWith(d, f) && Boot(f) == f;
    EarlyBoot(d, f, true, SAVED);
    var once := Go(d, crash);
    EarlyBoot(once, f, true, SAVED);
    ds, es := [d, once, Go(once, crash)], [crash, crash];
  }

  /** The image that was uploaded boots, but its record is lost; it is confirmed, and taken back again. */
  lemma ThereAndBack(d: Device, here: Slot, there: Slot) returns (ds: seq<Device>, es: seq<Event>)
    requires RunsWith(d, Slots(here, there, 0, 1))
    requires Complete(here) && here.state == Valid && Complete(there) && there.state == New
    ensures Chained(ds, es) && |es| == 3 && ds[0] == d
    ensures RunsWith(ds[3], Slots(here.(state := New), there.(state := Valid), 1, 0))
    ensures ds[3].history == d.history + [BootRecord(THERE, false)] && ds[3].logged == d.logged + [LOST]
  {
    var f := Slots(here, there, 0, 1);
    PlainBoot(d, f, false, LOST);
    es := [Boots(false, false, LOST, 0), Ask(ConfirmFrame, []), Ask(RevertFrame, [])];
    var booted := Go(d, es[0]);
    Confirmation(booted, Boot(f));
    var confirmed := Go(booted, es[1]);
    ds := [d, booted, confirmed, Go(confirmed, es[2])];
  }

  /** The sixth boot hands over. */
  lemma SixthBoot(d: Device, here: Slot, there: Slot)
    requires RunsWith(d, Slots(here, there, 0, 0))
    requires Complete(here) && here.state == Valid && Complete(there) && there.state == Valid
    requires d.history == SIX_BOOTS[..5] && d.logged == LOST_FOURTH
    ensures
      var t := Go(d, Boots(false, true, SAVED, 0));
      t.system.restarting && t.system.engine.flash.running == 0 && t.history == SIX_BOOTS
  {
    assert d.history + [BootRecord(HERE, true)] == SIX_BOOTS;
    LostBootMisleads(d.system.engine.flash);
  }

  /** It crashes before the restart; the first image runs again, is confirmed, and crashes once. */
  lemma TwoMoreCrashes(d: Device, here: Slot, there: Slot) returns (ds: seq<Device>, es: seq<Event>)
    requires RunsWith(d, Slots(here, there, 1, 0))
    requires Complete(here) && here.state == New && Complete(there) && there.state == Valid
    requires d.history == SIX_BOOTS[..4] && d.logged == LOST_FOURTH[..4]
    ensures Chained(ds, es) && |es| == 3 && ds[0] == d
    ensures es[2].Boots? && es[2].use.opens
    ensures ds[3].system.restarting && ds[3].system.engine.flash.running == 0
    ensures ds[3].history == SIX_BOOTS
  {
    var f := Slots(here, there, 1, 0);
    PlainBoot(d, f, true, SAVED);
    var crash := Boots(false, true, SAVED, 0);
    es := [crash, Ask(ConfirmFrame, []), crash];
    var back := Go(d, crash);
    Confirmation(back, Boot(f));
    var confirmed := Go(back, es[1]);
    SixthBoot(confirmed, here.(state := Valid), there);
    ds := [d, back, confirmed, Go(confirmed, crash)];
  }

  /**
   A run from the factory on in which a boot hands the device over although the last three runs of its slot
   did not all crash, whatever the two images: the record of one boot was lost, and with the gap its log
   charges the crash of the other slot to this one.
   */
  lemma RunIsMisled(desc: Descriptor, mode: Mode, marker: nat, image: Bytes) returns (ds: seq<Device>, es: seq<Event>)
    requires ParseDescriptor(image).Some?
    ensures IsRun(ds, es) && es != []
    ensures es[|es| - 1].Boots? && !SeesAll(ds[|es| - 1], es[|es| - 1])
    ensures
      var t := ds[|es|];
      t.system.restarting && !LastRunsCrashed(t.history, Label(t.system.engine.flash.running), H.CRASH_LOOP_RESETS)
  {
    ds, es := TwoCrashes(desc, mode, marker);
    var upload, requests := UploadRun(ds[2], image);
    ChainsJoin(ds, es, upload, requests);
    ds, es := ds + upload[1..], es + requests;
    var here, there := Slot(true, false, desc, Valid), Slot(true, false, ParseDescriptor(image).value, New);
    var away, visit := ThereAndBack(ds[5], here, there);
    ChainsJoin(ds, es, away, visit);
    ds, es := ds + away[1..], es + visit;
    var end, last := TwoMoreCrashes(ds[8], here.(state := New), there.(state := Valid));
    ChainsJoin(ds, es, end, last);
    ds, es := ds + end[1..], es + last;
    LostFourthHasNoLoop();
    assert ds[0] == NewDevice(desc, mode, marker, SAVED);
    if SeesAll(ds[10], es[10]) {
      HandsOverExactlyWhen(ds, es, 10);
    }
  }
}
