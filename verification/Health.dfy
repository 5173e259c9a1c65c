/**
 What guards an image from the outside: the rollback deadline of an unconfirmed image, and
 the crash-loop handover of a confirmed one at boot.
 */
module HealthModel {
  import opened Options
  import opened FlashModel

  const ROLLBACK_DEADLINE: int := 120_000   // milliseconds, as all times here
  const CHECK_INTERVAL: int := 1_000
  const ROLLBACK_HOLD: int := 100
  const CRASH_LOOP_RESETS: nat := 3

  datatype Action = Nothing | HoldOutput | RollBack

  datatype Watch = Watch(pending: bool, holding: bool, holdStart: int, start: int, lastCheck: int)

  function StartWatch(pending: bool, now: int): Watch {
    Watch(pending, false, 0, now, now)
  }

  datatype Ticked = Ticked(watch: Watch, action: Action)

  /** One check; `pending` is the image state as the OTA engine reports it now. */
  function Tick(w: Watch, pending: bool, now: int): Ticked {
    if w.holding then
      if now - w.holdStart < ROLLBACK_HOLD then Ticked(w, Nothing) else Ticked(w.(holding := false), RollBack)
    else if !w.pending || now - w.lastCheck < CHECK_INTERVAL then Ticked(w, Nothing)
    else if !pending then Ticked(w.(pending := false, lastCheck := now), Nothing)
    else if now - w.start >= ROLLBACK_DEADLINE then
      Ticked(w.(pending := false, lastCheck := now, holding := true, holdStart := now), HoldOutput)
    else Ticked(w.(lastCheck := now), Nothing)
  }

  /** The image a rollback leaves in charge, or nothing when none happens. */
  function RollbackNow(f: Flash): Option<Flash> {
    if PendingVerify(f) && RollbackPossible(f) then Some(MarkInvalidAndRollback(f)) else None
  }

  // --------------------------------------------------------------------------
  // Crash-loop handover
  // --------------------------------------------------------------------------

  const HANDOVER_REQUESTED: nat := 0x4F48_4F31
  const HANDOVER_DONE: nat := 0x4F48_4F32

  datatype Marker = Marker(bootedByHandover: bool, handedOverSincePowerOn: bool)

  /** What a boot learns from the marker the previous one left. */
  function ReadMarker(marker: nat, powerOn: bool): Marker {
    var booted := !powerOn && marker == HANDOVER_REQUESTED;
    Marker(booted, booted || (!powerOn && marker == HANDOVER_DONE))
  }

  function NextMarker(m: Marker): nat {
    if m.handedOverSincePowerOn then HANDOVER_DONE else 0
  }

  predicate CrashLooping(crashes: seq<bool>, threshold: nat) {
    threshold != 0 && |crashes| >= threshold
    && forall i :: |crashes| - threshold <= i < |crashes| ==> crashes[i]
  }

  /** The other slot can take over from a confirmed image: it was not rejected and boots. */
  predicate CanTakeOver(f: Flash) {
    && !PendingVerify(f)
    && !OtherSlot(f).state.Invalid? && !OtherSlot(f).state.Aborted?
    && SetBootError(f, Other(f)).None?
  }

  /** The state a boot is left in: running on, or about to restart into the other slot. */
  datatype Booted = Booted(flash: Flash, marker: nat, handedOver: bool)

  /** A boot up to the end of the handover prologue. */
  function BootDevice(f: Flash, marker: nat, powerOn: bool, crashes: seq<bool>): Booted {
    var g := Boot(f);
    var m := ReadMarker(marker, powerOn);
    if !m.handedOverSincePowerOn && CrashLooping(crashes, CRASH_LOOP_RESETS) && CanTakeOver(g) then
      Booted(SetBoot(g, Other(g)), HANDOVER_REQUESTED, true)
    else if m.bootedByHandover && PendingVerify(g) then Booted(MarkValid(g), NextMarker(m), false)
    else Booted(g, NextMarker(m), false)
  }

  lemma BootDeviceKeepsBootable(f: Flash, marker: nat, powerOn: bool, crashes: seq<bool>)
    requires Bootable(f)
    ensures Bootable(BootDevice(f, marker, powerOn, crashes).flash)
  {
    BootKeepsBootable(f);
    RunningKeepsBootable(Boot(f));
  }

  /** A handover only ever goes to a complete image that was never rejected, and the software
      reset it asks for runs that image and confirms it, without handing over again. */
  lemma HandoverLands(f: Flash, marker: nat, powerOn: bool, crashes: seq<bool>, later: seq<bool>)
    requires Bootable(f)
    requires BootDevice(f, marker, powerOn, crashes).handedOver
    ensures
      var g := Boot(f);
      var first := BootDevice(f, marker, powerOn, crashes);
      var second := BootDevice(first.flash, first.marker, false, later);
      && Complete(OtherSlot(g)) && !OtherSlot(g).state.Invalid? && !OtherSlot(g).state.Aborted?
      && !PendingVerify(g)
      && !second.handedOver
      && second.flash.running == Other(g)
      && RunningSlot(second.flash) == OtherSlot(g).(state := Valid)
      && OtherSlot(second.flash) == RunningSlot(g)
  {
    BootKeepsBootable(f);
    var g := Boot(f);
    var h := SetBoot(g, Other(g));
    assert Boot(h).running == Other(g);
  }

  // --------------------------------------------------------------------------
  // Any sequence of boots
  // --------------------------------------------------------------------------

  datatype BootEvent = BootEvent(powerOn: bool, crashes: seq<bool>)

  /** Boots in a row; whatever ran in between may have changed the flash, as `flashes` says. */
  function BootAll(marker: nat, flashes: seq<Flash>, events: seq<BootEvent>): (boots: seq<Booted>)
    requires |flashes| == |events|
    ensures |boots| == |events|
  {
    if events == [] then []
    else
      var n := |events| - 1;
      var before := BootAll(marker, flashes[..n], events[..n]);
      var m := if before == [] then marker else before[n - 1].marker;
      before + [BootDevice(flashes[n], m, events[n].powerOn, events[n].crashes)]
  }

  /** Handovers since the last power-on. */
  function HandoversSincePowerOn(events: seq<BootEvent>, boots: seq<Booted>): nat
    requires |events| == |boots|
  {
    if events == [] then 0
    else
      var n := |events| - 1;
      Count(boots[n].handedOver) + if events[n].powerOn then 0 else HandoversSincePowerOn(events[..n], boots[..n])
  }

  /** Whatever the crash logs and the flash say, at most one handover happens between two
      power-ons: two broken images cannot swap back and forth. */
  lemma {:induction false} AtMostOneHandover(marker: nat, flashes: seq<Flash>, events: seq<BootEvent>)
    requires |flashes| == |events|
    ensures HandoversSincePowerOn(events, BootAll(marker, flashes, events)) <= 1
    ensures events != [] && HandoversSincePowerOn(events, BootAll(marker, flashes, events)) == 1 ==>
              BootAll(marker, flashes, events)[|events| - 1].marker in {HANDOVER_REQUESTED, HANDOVER_DONE}
  {
    if events != [] {
      var n := |events| - 1;
      var boots := BootAll(marker, flashes, events);
      AtMostOneHandover(marker, flashes[..n], events[..n]);
      assert boots[..n] == BootAll(marker, flashes[..n], events[..n]);
    }
  }
}

module HealthDevice {
  import opened Options
  import FlashModel
  import H = HealthModel
  import opened FlashDevice
  import opened UpdateDevice

  class FirmwareHealthCheck {
    const ota: Ota
    var pending: bool
    var holding: bool
    var holdStart: int
    var start: int
    var lastCheck: int

    function Watch(): H.Watch
      reads this
    {
      H.Watch(pending, holding, holdStart, start, lastCheck)
    }

    constructor (ota: Ota, now: int)
      requires ota.Valid()
      ensures this.ota == ota
      ensures Watch() == H.StartWatch(FlashModel.PendingVerify(ota.flash.State()), now)
    {
      this.ota := ota;
      pending := FlashModel.PendingVerify(ota.flash.State());
      holding, holdStart, start, lastCheck := false, 0, now, now;
    }

    method Tick(now: int) returns (action: H.Action)
      requires ota.Valid()
      modifies this
      ensures H.Ticked(Watch(), action) == H.Tick(old(Watch()), FlashModel.PendingVerify(ota.flash.State()), now)
    {
      action := H.Nothing;
      if holding {
        if now - holdStart >= H.ROLLBACK_HOLD {
          holding := false;
          action := H.RollBack;
        }
        return;
      }
      if !pending || now - lastCheck < H.CHECK_INTERVAL {
        return;
      }
      lastCheck := now;
      if !FlashModel.PendingVerify(ota.flash.State()) {
        pending := false;
        return;
      }
      if now - start >= H.ROLLBACK_DEADLINE {
        pending := false;
        holding := true;
        holdStart := now;
        action := H.HoldOutput;
      }
    }

    /** The last look at the image before a rollback. */
    method LookAgain() returns (unconfirmed: bool)
      requires ota.Valid()
      ensures unconfirmed == FlashModel.PendingVerify(ota.flash.State())
    {
      unconfirmed := FlashModel.PendingVerify(ota.flash.State());
    }

    /** Marks the running image invalid, whether the host has confirmed it by now or not; true when the
        device then reboots into the other one. */
    method Rollback() returns (rebooting: bool)
      requires ota.Valid()
      modifies ota.flash
      ensures ota.Valid()
      ensures rebooting == FlashModel.RollbackPossible(old(ota.flash.State()))
      ensures ota.flash.State() == FlashModel.MarkInvalidAndRollback(old(ota.flash.State()))
    {
      rebooting := ota.flash.MarkInvalidAndRollback();
    }

    /** Both in a row, with nothing in between: a still unconfirmed image is marked invalid. */
    method RollbackNow() returns (rebooting: bool)
      requires ota.Valid()
      modifies ota.flash
      ensures ota.Valid()
      ensures rebooting == H.RollbackNow(old(ota.flash.State())).Some?
      ensures ota.flash.State() == if rebooting then H.RollbackNow(old(ota.flash.State())).value
                                   else old(ota.flash.State())
    {
      var unconfirmed := LookAgain();
      if !unconfirmed {
        return false;
      }
      rebooting := Rollback();
    }
  }

  /** One check up to the last look at the image; `rollingBack` says that the rollback comes next. */
  method StartHealthCheck(health: FirmwareHealthCheck, outputHolds: OutputHolds, now: int) returns (rollingBack: bool)
    requires health.ota.Valid()
    modifies health, outputHolds
    ensures
      var f := health.ota.flash.State();
      var t := H.Tick(old(health.Watch()), FlashModel.PendingVerify(f), now);
      && health.Watch() == t.watch
      && rollingBack == (t.action.RollBack? && FlashModel.PendingVerify(f))
      && outputHolds.count
           == old(outputHolds.count) + Count(t.watch.holding) + Count(rollingBack) - Count(old(health.holding))
  {
    rollingBack := false;
    var action := health.Tick(now);
    match action
    case HoldOutput =>
      outputHolds.count := outputHolds.count + 1;
    case RollBack =>
      rollingBack := health.LookAgain();
      if !rollingBack {
        outputHolds.count := outputHolds.count - 1;
      }
    case Nothing =>
  }

  /** The rollback itself; it gives the hold back only when the device does not restart. */
  method FinishRollback(health: FirmwareHealthCheck, outputHolds: OutputHolds) returns (restarting: bool)
    requires health.ota.Valid()
    modifies outputHolds, health.ota.flash
    ensures health.ota.Valid()
    ensures restarting == FlashModel.RollbackPossible(old(health.ota.flash.State()))
    ensures health.ota.flash.State() == FlashModel.MarkInvalidAndRollback(old(health.ota.flash.State()))
    ensures outputHolds.count == old(outputHolds.count) - if restarting then 0 else 1
  {
    restarting := health.Rollback();
    if !restarting {
      outputHolds.count := outputHolds.count - 1;
    }
  }

  /** Acts on one check: the hold goes up at the deadline and comes down when no rollback
      follows; `rebooting` says that the device restarts now. */
  method RunHealthCheck(health: FirmwareHealthCheck, outputHolds: OutputHolds, now: int) returns (rebooting: bool)
    requires health.ota.Valid()
    modifies health, outputHolds, health.ota.flash
    ensures health.ota.Valid()
    ensures
      var f := old(health.ota.flash.State());
      var t := H.Tick(old(health.Watch()), FlashModel.PendingVerify(f), now);
      && health.Watch() == t.watch
      && rebooting == (t.action.RollBack? && H.RollbackNow(f).Some?)
      && health.ota.flash.State() == (if rebooting then H.RollbackNow(f).value else f)
      && (!rebooting ==> outputHolds.count == old(outputHolds.count) + Count(t.watch.holding) - Count(old(health.holding)))
  {
    rebooting := false;
    var action := health.Tick(now);
    match action
    case HoldOutput =>
      outputHolds.count := outputHolds.count + 1;
    case RollBack =>
      rebooting := health.RollbackNow();
      outputHolds.count := outputHolds.count - 1;
    case Nothing =>
  }

  /** What the marker says about how this boot came about, and what it leaves for the next one. */
  method TakeHandoverMarker(marker: nat, powerOn: bool) returns (m: H.Marker, marker': nat)
    ensures m == H.ReadMarker(marker, powerOn)
    ensures marker' == H.NextMarker(m)
  {
    m := H.Marker(false, false);
    if !powerOn {
      var booted := marker == H.HANDOVER_REQUESTED;
      m := H.Marker(booted, booted || marker == H.HANDOVER_DONE);
    }
    marker' := if m.handedOverSincePowerOn then H.HANDOVER_DONE else 0;
  }

  /** Hands the device to the other slot when this image keeps crashing. */
  method RevertIfCrashLooping(flash: FlashMemory, crashes: seq<bool>, threshold: nat) returns (switched: bool)
    requires flash.Valid()
    modifies flash
    ensures flash.Valid()
    ensures switched == (H.CrashLooping(crashes, threshold) && H.CanTakeOver(old(flash.State())))
    ensures flash.State() == if switched then FlashModel.SetBoot(old(flash.State()), FlashModel.Other(old(flash.State())))
                             else old(flash.State())
  {
    var count := |crashes|;
    if threshold == 0 || count < threshold {
      return false;
    }
    for i := count - threshold to count
      invariant forall j :: count - threshold <= j < i ==> crashes[j]
    {
      if !crashes[i] {
        return false;
      }
    }
    if FlashModel.PendingVerify(flash.State()) {
      return false;
    }
    var other := FlashModel.OtherSlot(flash.State());
    if !other.hasImage || other.state.Invalid? || other.state.Aborted? {
      return false;
    }
    var error := flash.SetBoot(FlashModel.Other(flash.State()));
    switched := error.None?;
  }

  /** The boot prologue: returns the new marker and whether the device now restarts. */
  method BootPrologue(flash: FlashMemory, marker: nat, powerOn: bool, crashes: seq<bool>)
    returns (marker': nat, restarting: bool)
    requires flash.Valid()
    modifies flash
    ensures flash.Valid()
    ensures H.Booted(flash.State(), marker', restarting) == H.BootDevice(old(flash.State()), marker, powerOn, crashes)
  {
    var _ := flash.Boot();
    var m;
    m, marker' := TakeHandoverMarker(marker, powerOn);
    restarting := false;
    if !m.handedOverSincePowerOn {
      restarting := RevertIfCrashLooping(flash, crashes, H.CRASH_LOOP_RESETS);
      if restarting {
        marker' := H.HANDOVER_REQUESTED;
        return;
      }
    }
    if m.bootedByHandover && FlashModel.PendingVerify(flash.State()) {
      flash.MarkValid();
    }
  }
}
