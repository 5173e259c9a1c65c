/**
 The two-slot flash and its bootloader: which slot runs, which boots next, and what state
 each image is in. Values and transitions first, then the flash object.
 */
module FlashModel {
  import opened Bytes
  import opened Options

  datatype ImageState = New | Pending | Valid | Invalid | Aborted | Undefined

  /** An app descriptor, as the bytes of its fixed-size record. */
  type Descriptor = Bytes

  datatype Slot = Slot(hasImage: bool, partial: bool, desc: Descriptor, state: ImageState)

  const EMPTY := Slot(false, false, [], Undefined)

  predicate Complete(s: Slot) {
    s.hasImage && !s.partial
  }

  datatype FlashState = FlashState(slots: seq<Slot>, running: nat, boot: nat)

  type Flash = f: FlashState | |f.slots| == 2 && f.running < 2 && f.boot < 2
    witness FlashState([EMPTY, EMPTY], 0, 0)

  function Other(f: Flash): nat {
    1 - f.running
  }

  function RunningSlot(f: Flash): Slot {
    f.slots[f.running]
  }

  function OtherSlot(f: Flash): Slot {
    f.slots[Other(f)]
  }

  predicate PendingVerify(f: Flash) {
    RunningSlot(f).state.Pending?
  }

  function WithSlot(f: Flash, i: nat, s: Slot): Flash
    requires i < 2
  {
    f.(slots := f.slots[i := s])
  }

  // --------------------------------------------------------------------------
  // Transitions
  // --------------------------------------------------------------------------

  /** A brand-new board: one confirmed image. */
  function Format(desc: Descriptor): Flash {
    FlashState([Slot(true, false, desc, Valid), EMPTY], 0, 0)
  }

  /** An unconfirmed image is given up on at the next boot. */
  function GiveUp(s: Slot): Slot {
    if s.state.Pending? then s.(state := Aborted) else s
  }

  /** A freshly activated image runs unconfirmed. */
  function Start(s: Slot): Slot {
    if s.state.New? then s.(state := Pending) else s
  }

  predicate RollsBack(f: Flash) {
    f.slots[f.boot].state.Pending? && Complete(f.slots[1 - f.boot])
  }

  /** The bootloader. */
  function Boot(f: Flash): Flash {
    var boot := if RollsBack(f) then 1 - f.boot else f.boot;
    var slots := [GiveUp(f.slots[0]), GiveUp(f.slots[1])];
    FlashState(slots[boot := Start(slots[boot])], boot, boot)
  }

  datatype BootError = NotFound | ValidateFailed

  /** Why a slot cannot be made the boot slot. */
  function SetBootError(f: Flash, i: nat): Option<BootError> {
    if i >= 2 || !f.slots[i].hasImage then Some(NotFound)
    else if f.slots[i].partial then Some(ValidateFailed)
    else None
  }

  function SetBoot(f: Flash, i: nat): Flash {
    if SetBootError(f, i).Some? then f
    else WithSlot(f, i, f.slots[i].(state := New)).(boot := i)
  }

  function MarkValid(f: Flash): Flash {
    WithSlot(f, f.running, RunningSlot(f).(state := Valid))
  }

  /** The other slot can be rolled back to: its entry is not rejected and its image verifies. */
  predicate RollbackPossible(f: Flash) {
    var s := OtherSlot(f);
    Complete(s) && (s.state.New? || s.state.Pending? || s.state.Valid?)
  }

  function MarkInvalidAndRollback(f: Flash): Flash {
    if !RollbackPossible(f) then f
    else WithSlot(f, f.running, RunningSlot(f).(state := Invalid)).(boot := Other(f))
  }

  /** Erases the slot that is not running. */
  function BeginUpload(f: Flash): Flash {
    WithSlot(f, Other(f), EMPTY).(boot := f.running)
  }

  function UploadDescriptor(f: Flash, desc: Descriptor): Flash {
    WithSlot(f, Other(f), OtherSlot(f).(hasImage := true, partial := true, desc := desc))
  }

  function CommitImage(f: Flash, desc: Descriptor): Flash {
    WithSlot(f, Other(f), Slot(true, false, desc, New)).(boot := Other(f))
  }

  // --------------------------------------------------------------------------
  // What every run keeps
  // --------------------------------------------------------------------------

  /**
   The device can always boot: the running slot and the boot slot hold complete images. Only
   the running image can be unconfirmed, and while it is there is an image to go back to. A
   freshly activated image is the one that boots next.
   */
  predicate Bootable(f: Flash) {
    && Complete(RunningSlot(f)) && Complete(f.slots[f.boot])
    && !OtherSlot(f).state.Pending?
    && (PendingVerify(f) ==> Complete(OtherSlot(f)))
    && !RunningSlot(f).state.New?
    && (OtherSlot(f).state.New? ==> f.boot == Other(f))
  }

  lemma FormatIsBootable(desc: Descriptor)
    ensures Bootable(Format(desc))
  {
  }

  /** Booting keeps the flash bootable, and never runs the image that was left unconfirmed. */
  lemma BootKeepsBootable(f: Flash)
    requires Bootable(f)
    ensures Bootable(Boot(f))
    ensures PendingVerify(f) ==> Boot(f).running == Other(f) && Boot(f).slots[f.running].state.Aborted?
    ensures Boot(f).boot == Boot(f).running
    ensures !OtherSlot(Boot(f)).state.New?
  {
  }

  /** Operations of a running device that touch the flash outside an upload. */
  lemma RunningKeepsBootable(f: Flash)
    requires Bootable(f)
    ensures Bootable(MarkValid(f))
    ensures Bootable(SetBoot(f, Other(f)))
    ensures !PendingVerify(f) ==> Bootable(BeginUpload(f))
    ensures PendingVerify(f) ==> Bootable(Boot(MarkInvalidAndRollback(f)))
  {
    if PendingVerify(f) && RollbackPossible(f) {
      var g := MarkInvalidAndRollback(f);
      assert g.slots[g.boot] == OtherSlot(f);
      assert Bootable(Boot(g));
    } else if PendingVerify(f) {
      BootKeepsBootable(f);
    }
  }

  /** While an upload runs: nothing to go back to is needed, and nothing half-written can boot. */
  predicate Uploading(f: Flash) {
    Bootable(f) && !PendingVerify(f) && f.boot == f.running && !Complete(OtherSlot(f)) && !OtherSlot(f).state.New?
  }

  lemma UploadKeepsBootable(f: Flash, desc: Descriptor)
    requires Bootable(f)
    ensures !PendingVerify(f) ==> Uploading(BeginUpload(f))
    ensures Uploading(f) ==> Uploading(UploadDescriptor(f, desc)) && Uploading(MarkValid(f))
    ensures Uploading(f) ==> Bootable(CommitImage(f, desc))
    ensures Uploading(f) ==> SetBoot(f, Other(f)) == f && MarkInvalidAndRollback(f) == f
  {
  }
}

module FlashDevice {
  import opened Bytes
  import opened Options
  import opened FlashModel

  class FlashMemory {
    var slots: seq<Slot>
    var running: nat
    var boot: nat

    ghost predicate Valid()
      reads this
    {
      |slots| == 2 && running < 2 && boot < 2
    }

    function State(): Flash
      requires Valid()
      reads this
    {
      FlashState(slots, running, boot)
    }

    constructor (desc: Descriptor)
      ensures Valid() && State() == FlashModel.Format(desc)
    {
      slots := [Slot(true, false, desc, ImageState.Valid), EMPTY];
      running, boot := 0, 0;
    }

    /** Back to a brand-new board. */
    method Format(desc: Descriptor)
      modifies this
      ensures Valid() && State() == FlashModel.Format(desc)
    {
      slots := [EMPTY, EMPTY];
      slots := slots[0 := Slot(true, false, desc, ImageState.Valid)];
      running, boot := 0, 0;
    }

    /** The bootloader; returns whether it rolled an unconfirmed image back. */
    method Boot() returns (rolledBack: bool)
      requires Valid()
      modifies this
      ensures Valid() && State() == FlashModel.Boot(old(State()))
      ensures rolledBack == FlashModel.RollsBack(old(State()))
    {
      rolledBack := false;
      var bootWasPending := slots[boot].state.Pending?;
      for i := 0 to 2
        invariant Valid() && running == old(running) && boot == old(boot)
        invariant forall j :: 0 <= j < 2 ==> slots[j] == if j < i then GiveUp(old(slots)[j]) else old(slots)[j]
      {
        if slots[i].state.Pending? {
          slots := slots[i := slots[i].(state := Aborted)];
        }
      }
      if bootWasPending {
        var other := 1 - boot;
        if slots[other].hasImage && !slots[other].partial {
          boot := other;
          rolledBack := true;
        }
      }
      if slots[boot].state.New? {
        slots := slots[boot := slots[boot].(state := Pending)];
      }
      running := boot;
    }

    method SetBoot(i: nat) returns (error: Option<BootError>)
      requires Valid()
      modifies this
      ensures Valid() && State() == FlashModel.SetBoot(old(State()), i)
      ensures error == SetBootError(old(State()), i)
    {
      if i >= 2 || !slots[i].hasImage {
        return Some(NotFound);
      }
      if slots[i].partial {
        return Some(ValidateFailed);
      }
      slots := slots[i := slots[i].(state := New)];
      boot := i;
      error := None;
    }

    method MarkValid()
      requires Valid()
      modifies this
      ensures Valid() && State() == FlashModel.MarkValid(old(State()))
    {
      slots := slots[running := slots[running].(state := ImageState.Valid)];
    }

    method MarkInvalidAndRollback() returns (ok: bool)
      requires Valid()
      modifies this
      ensures Valid() && State() == FlashModel.MarkInvalidAndRollback(old(State()))
      ensures ok == RollbackPossible(old(State()))
    {
      var other := 1 - running;
      var o := slots[other];
      var entryValid := o.state.New? || o.state.Pending? || o.state.Valid?;
      if !o.hasImage || o.partial || !entryValid {
        return false;
      }
      slots := slots[running := slots[running].(state := Invalid)];
      boot := other;
      ok := true;
    }

    method BeginUpload()
      requires Valid()
      modifies this
      ensures Valid() && State() == FlashModel.BeginUpload(old(State()))
    {
      var target := 1 - running;
      slots := slots[target := EMPTY];
      if boot == target {
        boot := running;
      }
    }

    method UploadDescriptor(desc: Descriptor)
      requires Valid()
      modifies this
      ensures Valid() && State() == FlashModel.UploadDescriptor(old(State()), desc)
    {
      slots := slots[1 - running := slots[1 - running].(hasImage := true, partial := true, desc := desc)];
    }

    method CommitImage(desc: Descriptor)
      requires Valid()
      modifies this
      ensures Valid() && State() == FlashModel.CommitImage(old(State()), desc)
    {
      var target := 1 - running;
      slots := slots[target := Slot(true, false, desc, New)];
      boot := target;
    }
  }
}
