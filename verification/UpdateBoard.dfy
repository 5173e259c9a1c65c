/** The objects of one device, wired as the firmware wires them: two links over one engine and one hold counter. */
module UpdateBoard {
  import opened Options
  import opened UpdateDevice
  import opened HealthDevice
  import opened FlashDevice
  import FlashModel
  import S = ServiceModel
  import H = HealthModel
  import U = UpdateSystem

  class Board {
    const ota: Ota
    const outputHolds: OutputHolds
    const store: ModeStore
    const first: CalibrationService
    const second: CalibrationService
    const health: FirmwareHealthCheck
    const marker: nat
    var rollingBack: bool
    var restarting: bool

    /** Everything is shared, and the two links are not one. */
    ghost predicate Valid()
      reads this, ota, ota.flash
    {
      && ota.Valid() && first != second
      && first.ota == ota && first.outputHolds == outputHolds && first.store == store
      && second.ota == ota && second.outputHolds == outputHolds && second.store == store
      && health.ota == ota
    }

    function State(): (s: U.System)
      requires Valid()
      reads this, ota, ota.flash, outputHolds, store, first, second, health
      ensures U.WellFormed(s)
    {
      U.System(ota.State(), [first.Link(), second.Link()], outputHolds.count, health.Watch(), store.mode, marker,
               rollingBack, restarting)
    }

    /** The device after power-on or a reset in state `s`: boot loader, prologue, and everything in RAM anew. */
    constructor (flash: FlashMemory, store: ModeStore, marker: nat, powerOn: bool, crashes: seq<bool>, now: int,
                 ghost s: U.System)
      requires flash.Valid() && s.marker == marker && s.mode == store.mode
      modifies flash
      ensures Valid() && ota.flash == flash && this.store == store
      ensures fresh({ota, outputHolds, first, second, health})
      ensures State() == U.Restarted(s, old(flash.State()), powerOn, crashes, now)
    {
      var marker', handedOver := BootPrologue(flash, marker, powerOn, crashes);
      var engine := new Ota(flash);
      var holds := new OutputHolds();
      ota, outputHolds, this.store, this.marker := engine, holds, store, marker';
      first := new CalibrationService(engine, holds, store);
      second := new CalibrationService(engine, holds, store);
      health := new FirmwareHealthCheck(engine, now);
      rollingBack, restarting := false, handedOver;
    }

    function Service(i: nat): CalibrationService {
      if i == 0 then first else second
    }

    /** A request arrives on link i. */
    method Frame(i: nat, r: S.Request, now: int) returns (reply: S.Reply)
      requires Valid() && !restarting && i < 2
      modifies Service(i), ota, ota.flash, outputHolds
      ensures Valid() && State() == U.Next(old(State()), U.Frame(i, r, now))
      ensures reply == S.Handle(U.ViewOf(old(State()), i), r, now).reply
    {
      reply := Service(i).HandleFrame(r, now);
    }

    /** The reply on link i was handed to the transport, or could not be. */
    method ReplySent(i: nat, queued: bool) returns (action: Option<S.Deferred>)
      requires Valid() && !restarting && i < 2
      modifies Service(i), outputHolds, store
      ensures Valid() && State() == U.Next(old(State()), U.ReplySent(i, queued))
      ensures action == if queued then old(Service(i).deferred) else None
    {
      action := Service(i).RunAfterReply(queued);
    }

    method ExpiryCheck(i: nat, maxIdle: int, now: int, busy: bool) returns (aborted: bool)
      requires Valid() && !restarting && !rollingBack && i < 2
      modifies Service(i), ota, outputHolds
      ensures Valid() && State() == if busy then old(State()) else U.Next(old(State()), U.ExpiryCheck(i, maxIdle, now))
    {
      aborted := Service(i).ExpireStaleUpdate(maxIdle, now, busy);
    }

    method LinkLost(i: nat)
      requires Valid() && !restarting && i < 2
      modifies Service(i), ota, outputHolds
      ensures Valid() && State() == U.Next(old(State()), U.LinkLost(i))
    {
      Service(i).AbortUpdate();
    }

    /** One health check, up to the last look at the image. */
    method HealthCheck(now: int)
      requires Valid() && !restarting && !rollingBack
      modifies this`rollingBack, health, outputHolds
      ensures Valid() && State() == U.Next(old(State()), U.HealthCheck(now))
    {
      rollingBack := StartHealthCheck(health, outputHolds, now);
    }

    /** The rollback a health check decided on, whatever the links have done meanwhile. */
    method RollBack()
      requires Valid() && !restarting && rollingBack
      modifies this`rollingBack, this`restarting, outputHolds, ota.flash
      ensures Valid() && State() == U.Next(old(State()), U.Step.RollBack)
    {
      restarting := FinishRollback(health, outputHolds);
      rollingBack := restarting;
    }

    /** A fatal failure at start: an unconfirmed image is rejected at once. */
    method Reject()
      requires Valid() && !restarting && !rollingBack
      modifies this`restarting, ota.flash
      ensures Valid() && State() == U.Next(old(State()), U.Reject)
    {
      restarting := health.RollbackNow();
    }

    /** A reset, or a power loss: the flash, the mode and the marker are all that is left of this board. */
    method Reset(powerOn: bool, crashes: seq<bool>, now: int) returns (next: Board)
      requires Valid()
      modifies ota.flash
      ensures fresh(next) && next.Valid() && next.ota.flash == ota.flash && next.store == store
      ensures next.State() == U.Next(old(State()), U.Reset(powerOn, crashes, now))
    {
      next := new Board(ota.flash, store, marker, powerOn, crashes, now, State());
    }
  }
}
