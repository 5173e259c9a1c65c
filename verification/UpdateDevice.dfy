/** The objects behind the update protocol: the OTA engine and the calibration service. */
module UpdateDevice {
  import opened Bytes
  import opened Options
  import FlashModel
  import OtaModel
  import S = ServiceModel
  import opened FlashDevice

  class Ota {
    const flash: FlashMemory
    var active: bool
    var image: Bytes
    var imageSize: Word
    var descSeen: bool

    ghost predicate Valid()
      reads this, flash
    {
      flash.Valid()
    }

    function State(): OtaModel.Engine
      requires Valid()
      reads this, flash
    {
      OtaModel.Engine(flash.State(), active, image, imageSize, descSeen)
    }

    constructor (flash: FlashMemory)
      requires flash.Valid()
      ensures this.flash == flash && Valid() && State() == OtaModel.Idle(flash.State())
    {
      this.flash := flash;
      active, image, imageSize, descSeen := false, [], 0, false;
    }

    method Begin(size: Word) returns (error: Option<OtaModel.OtaError>)
      requires Valid()
      modifies this, flash
      ensures Valid() && State() == OtaModel.Begin(old(State()), size)
      ensures error == OtaModel.BeginError(old(State()))
    {
      if active {
        return Some(OtaModel.Busy);
      }
      if FlashModel.PendingVerify(flash.State()) {
        return Some(OtaModel.IoError);
      }
      flash.BeginUpload();
      active := true;
      imageSize := size;
      image := [];
      descSeen := false;
      error := None;
    }

    method Write(data: Bytes) returns (error: Option<OtaModel.OtaError>)
      requires Valid()
      modifies this, flash
      ensures Valid() && State() == OtaModel.Write(old(State()), data)
      ensures error == if old(active) then None else Some(OtaModel.NotPermitted)
    {
      if !active {
        return Some(OtaModel.NotPermitted);
      }
      image := image + data;
      var desc := OtaModel.ParseDescriptor(image);
      if !descSeen && desc.Some? {
        descSeen := true;
        flash.UploadDescriptor(desc.value);
      }
      error := None;
    }

    method Finish() returns (error: Option<OtaModel.OtaError>)
      requires Valid()
      modifies this, flash
      ensures Valid() && State() == OtaModel.Finish(old(State()))
      ensures error == OtaModel.FinishError(old(State()))
    {
      if !active {
        return Some(OtaModel.NotPermitted);
      }
      active := false;
      var desc := OtaModel.ParseDescriptor(image);
      if desc.None? {
        return Some(OtaModel.BadMessage);
      }
      flash.CommitImage(desc.value);
      image := [];
      error := None;
    }

    method Abort()
      requires Valid()
      modifies this
      ensures Valid() && State() == OtaModel.Abort(old(State()))
    {
      active := false;
      image := [];
    }
  }

  /** How many parties hold the output neutral. */
  class OutputHolds {
    var count: int
    constructor ()
      ensures count == 0
    {
      count := 0;
    }
  }

  /** The live input mode. */
  class ModeStore {
    var mode: S.Mode
    constructor (mode: S.Mode)
      ensures this.mode == mode
    {
      this.mode := mode;
    }
  }

  class CalibrationService {
    const ota: Ota
    const outputHolds: OutputHolds
    const store: ModeStore
    var owner: bool
    var holding: bool
    var deferred: Option<S.Deferred>
    var lastActivity: int

    ghost predicate Valid()
      reads this, ota, ota.flash
    {
      ota.Valid()
    }

    function Link(): S.Link
      reads this
    {
      S.Link(owner, holding, deferred, lastActivity)
    }

    function View(): S.View
      requires Valid()
      reads this, ota, ota.flash, outputHolds, store
    {
      S.View(ota.State(), Link(), outputHolds.count, store.mode)
    }

    constructor (ota: Ota, outputHolds: OutputHolds, store: ModeStore)
      requires ota.Valid()
      ensures this.ota == ota && this.outputHolds == outputHolds && this.store == store
      ensures Valid() && View() == S.View(ota.State(), S.FRESH_LINK, outputHolds.count, store.mode)
    {
      this.ota, this.outputHolds, this.store := ota, outputHolds, store;
      owner, holding, deferred, lastActivity := false, false, None, 0;
    }

    method HoldOutput(hold: bool)
      requires Valid()
      modifies this`holding, outputHolds
      ensures Valid() && View() == S.Hold(old(View()), hold)
    {
      if hold == holding {
        return;
      }
      holding := hold;
      outputHolds.count := if hold then outputHolds.count + 1 else outputHolds.count - 1;
    }

    /** Ends the session this link owns. */
    method Drop()
      requires Valid()
      modifies this`owner, ota
      ensures Valid() && View() == S.Drop(old(View()))
    {
      ota.Abort();
      owner := false;
    }

    method Defer(action: S.Deferred)
      requires Valid()
      modifies this`holding, this`deferred, outputHolds
      ensures Valid() && View() == S.Later(old(View()), action)
    {
      HoldOutput(true);
      deferred := Some(action);
    }

    /** Handles one request and builds its reply. */
    method HandleFrame(r: S.Request, now: int) returns (reply: S.Reply)
      requires Valid()
      modifies this, ota, ota.flash, outputHolds
      ensures Valid()
      ensures S.Handled(View(), reply) == S.Handle(old(View()), r, now)
    {
      match r.kind
      case BeginFrame =>
        reply := HandleBegin(r.payload, now);
      case DataFrame =>
        reply := HandleData(r.payload, now);
      case FinishFrame =>
        reply := HandleFinish();
      case AbortFrame =>
        if owner {
          Drop();
          HoldOutput(false);
        }
        reply := S.Ok(0);
      case ConfirmFrame =>
        ota.flash.MarkValid();
        reply := S.Ok(0);
      case RevertFrame =>
        reply := HandleRevert(r.payload);
      case RestartFrame =>
        if r.payload != [] {
          return S.Error(S.InvalidArgument);
        }
        Defer(S.Reboot);
        reply := S.Ok(0);
      case ModeFrame =>
        reply := HandleMode(r.payload);
      case OtherFrame =>
        reply := S.NoReply;
    }

    method HandleBegin(payload: Bytes, now: int) returns (reply: S.Reply)
      requires Valid()
      modifies this, ota, ota.flash, outputHolds
      ensures Valid()
      ensures S.Handled(View(), reply) == S.HandleBegin(old(View()), payload, now)
    {
      if |payload| != 4 {
        return S.Error(S.InvalidArgument);
      }
      if FlashModel.PendingVerify(ota.flash.State()) {
        return S.Error(S.OperationNotPermitted);
      }
      var tookOver := false;
      if owner && ota.active {
        Drop();
        tookOver := true;
      }
      var wasHolding := holding;
      HoldOutput(true);
      var error := ota.Begin(GetU32(payload));
      if error.Some? {
        if !wasHolding || tookOver {
          HoldOutput(false);
        }
        return S.Error(S.EngineError(error.value));
      }
      owner := true;
      lastActivity := now;
      reply := S.Ok(0);
    }

    method HandleData(payload: Bytes, now: int) returns (reply: S.Reply)
      requires Valid()
      modifies this, ota, ota.flash, outputHolds
      ensures Valid()
      ensures S.Handled(View(), reply) == S.HandleData(old(View()), payload, now)
    {
      if !owner {
        return S.Error(S.OperationNotPermitted);
      }
      if |payload| <= 4 {
        return S.Error(S.InvalidArgument);
      }
      if GetU32(payload[..4]) != |ota.image| {
        return S.Error(S.InvalidArgument);
      }
      var error := ota.Write(payload[4..]);
      if error.Some? {
        owner := false;
        HoldOutput(false);
        return S.Error(S.EngineError(error.value));
      }
      lastActivity := now;
      reply := S.Ok(|ota.image| % 0x1_0000_0000);
    }

    method HandleFinish() returns (reply: S.Reply)
      requires Valid()
      modifies this, ota, ota.flash, outputHolds
      ensures Valid()
      ensures S.Handled(View(), reply) == S.HandleFinish(old(View()))
    {
      if !owner {
        return S.Error(S.OperationNotPermitted);
      }
      var error := ota.Finish();
      owner := false;
      if error.Some? {
        HoldOutput(false);
        return S.Error(S.EngineError(error.value));
      }
      Defer(S.Reboot);
      reply := S.Ok(0);
    }

    method HandleRevert(payload: Bytes) returns (reply: S.Reply)
      requires Valid()
      modifies this, ota, ota.flash, outputHolds
      ensures Valid()
      ensures S.Handled(View(), reply) == S.HandleRevert(old(View()), payload)
    {
      if payload != [] {
        return S.Error(S.InvalidArgument);
      }
      if owner && ota.active {
        Drop();
        HoldOutput(false);
      }
      if ota.active {
        return S.Error(S.InProgress);
      }
      var other := FlashModel.Other(ota.flash.State());
      if !FlashModel.OtherSlot(ota.flash.State()).hasImage {
        return S.Error(S.NoSuchDevice);
      }
      var error := ota.flash.SetBoot(other);
      if error.Some? {
        return S.Error(S.IoFailure);
      }
      Defer(S.Reboot);
      reply := S.Ok(0);
    }

    method HandleMode(payload: Bytes) returns (reply: S.Reply)
      requires Valid()
      modifies this, outputHolds
      ensures Valid()
      ensures S.Handled(View(), reply) == S.HandleMode(old(View()), payload)
    {
      if |payload| != 1 || payload[0] > 1 {
        return S.Error(S.InvalidArgument);
      }
      var mode := if payload[0] == 1 then S.Xac else S.Mouse;
      if mode == store.mode {
        return S.Ok(0);
      }
      Defer(S.SwitchMode(mode));
      reply := S.Ok(1);
    }

    /** Runs once the reply has been handed to the transport; returns the action to carry
        out, after which the device restarts. */
    method RunAfterReply(queued: bool) returns (action: Option<S.Deferred>)
      requires Valid()
      modifies this, outputHolds, store
      ensures Valid() && View() == S.AfterReply(old(View()), queued)
      ensures action == if queued then old(deferred) else None
    {
      action := deferred;
      deferred := None;
      if action.Some? && !queued {
        if !(owner && ota.active) {
          HoldOutput(false);
        }
        return None;
      }
      if action.Some? && action.value.SwitchMode? {
        store.mode := action.value.mode;
      }
    }

    /** Ends an upload nobody has fed for too long; returns whether it did. */
    method ExpireStaleUpdate(maxIdle: int, now: int, busy: bool) returns (aborted: bool)
      requires Valid()
      modifies this, ota, outputHolds
      ensures Valid() && View() == if busy then old(View()) else S.Expire(old(View()), maxIdle, now)
      ensures aborted == old(!busy && owner && ota.active && now - lastActivity >= maxIdle)
    {
      if busy || !owner {
        return false;
      }
      if !ota.active {
        owner := false;
        HoldOutput(false);
        return false;
      }
      if now - lastActivity < maxIdle {
        return false;
      }
      Drop();
      HoldOutput(false);
      aborted := true;
    }

    /** On transport loss. */
    method AbortUpdate()
      requires Valid()
      modifies this, ota, outputHolds
      ensures Valid() && View() == S.AbortUpdate(old(View()))
    {
      if owner {
        Drop();
        HoldOutput(false);
      }
    }
  }
}
