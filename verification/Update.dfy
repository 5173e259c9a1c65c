/** The OTA engine: one upload session over the flash. */
module OtaModel {
  import opened Bytes
  import opened Options
  import opened FlashModel

  datatype Engine = Engine(flash: Flash, active: bool, image: Bytes, imageSize: Word, descSeen: bool)

  datatype OtaError = Busy | IoError | NotPermitted | BadMessage

  const DESC_OFFSET: nat := 32
  const DESC_SIZE: nat := 256
  const DESC_MAGIC: Word := 0xABCD_5432

  /** The app descriptor of a firmware image, if the bytes so far hold one. */
  function ParseDescriptor(image: Bytes): Option<Descriptor> {
    if |image| < DESC_OFFSET + DESC_SIZE || image[0] != 0xE9 then None
    else
      var desc := image[DESC_OFFSET..DESC_OFFSET + DESC_SIZE];
      if GetU32(desc[..4]) != DESC_MAGIC then None else Some(desc)
  }

  /** The engine right after a reset. */
  function Idle(flash: Flash): Engine {
    Engine(flash, false, [], 0, false)
  }

  function BeginError(e: Engine): Option<OtaError> {
    if e.active then Some(Busy) else if PendingVerify(e.flash) then Some(IoError) else None
  }

  function Begin(e: Engine, size: Word): Engine {
    if BeginError(e).Some? then e else Engine(BeginUpload(e.flash), true, [], size, false)
  }

  function Write(e: Engine, data: Bytes): Engine {
    if !e.active then e
    else
      var image := e.image + data;
      var desc := ParseDescriptor(image);
      if !e.descSeen && desc.Some?
      then e.(image := image, descSeen := true, flash := FlashModel.UploadDescriptor(e.flash, desc.value))
      else e.(image := image)
  }

  function FinishError(e: Engine): Option<OtaError> {
    if !e.active then Some(NotPermitted)
    else if ParseDescriptor(e.image).None? then Some(BadMessage)
    else None
  }

  function Finish(e: Engine): Engine {
    if !e.active then e
    else if FinishError(e).Some? then e.(active := false)
    else e.(active := false, image := [], flash := CommitImage(e.flash, ParseDescriptor(e.image).value))
  }

  function Abort(e: Engine): Engine {
    e.(active := false, image := [])
  }
}

/** One console link's service: what each request does to it, the engine and the hold count. */
module ServiceModel {
  import opened Bytes
  import opened Options
  import opened FlashModel
  import opened OtaModel

  datatype Kind =
    | BeginFrame | DataFrame | FinishFrame | AbortFrame   // a firmware upload
    | ConfirmFrame | RevertFrame                          // MARK_VALID, REVERT
    | RestartFrame | ModeFrame
    | OtherFrame                                          // touches none of this

  datatype Request = Request(kind: Kind, payload: Bytes)

  datatype Mode = Mouse | Xac

  /** What runs once the reply is queued. */
  datatype Deferred = Reboot | SwitchMode(mode: Mode)

  datatype Refusal = InvalidArgument | OperationNotPermitted | InProgress | NoSuchDevice | IoFailure | EngineError(e: OtaError)

  datatype Reply = Ok(value: Word) | Error(why: Refusal) | NoReply

  datatype Link = Link(owner: bool, holding: bool, deferred: Option<Deferred>, lastActivity: int)

  const FRESH_LINK := Link(false, false, None, 0)

  /** What one service sees and changes. */
  datatype View = View(engine: Engine, link: Link, holds: int, mode: Mode)

  datatype Handled = Handled(view: View, reply: Reply)

  /** Only changes of a service's hold reach the shared counter. */
  function Hold(v: View, on: bool): View {
    v.(link := v.link.(holding := on), holds := v.holds + Count(on) - Count(v.link.holding))
  }

  /** Ends the session this link owns. */
  function Drop(v: View): View {
    v.(engine := Abort(v.engine), link := v.link.(owner := false))
  }

  function Later(v: View, action: Deferred): View {
    var held := Hold(v, true);
    held.(link := held.link.(deferred := Some(action)))
  }

  function HandleBegin(v: View, payload: Bytes, now: int): Handled {
    if |payload| != 4 then Handled(v, Error(InvalidArgument))
    else if PendingVerify(v.engine.flash) then Handled(v, Error(OperationNotPermitted))
    else
      var takeover := v.link.owner && v.engine.active;
      var w := if takeover then Drop(v) else v;
      var error := BeginError(w.engine);
      if error.Some? then
        Handled(if w.link.holding && !takeover then w else Hold(w, false), Error(EngineError(error.value)))
      else
        var held := Hold(w, true);
        Handled(held.(engine := Begin(w.engine, GetU32(payload)),
                      link := held.link.(owner := true, lastActivity := now)), Ok(0))
  }

  function HandleData(v: View, payload: Bytes, now: int): Handled {
    if !v.link.owner then Handled(v, Error(OperationNotPermitted))
    else if |payload| <= 4 then Handled(v, Error(InvalidArgument))
    else if GetU32(payload[..4]) != |v.engine.image| then Handled(v, Error(InvalidArgument))
    else if !v.engine.active then
      Handled(Hold(v.(link := v.link.(owner := false)), false), Error(EngineError(NotPermitted)))
    else
      var e := Write(v.engine, payload[4..]);
      Handled(v.(engine := e, link := v.link.(lastActivity := now)), Ok(|e.image| % 0x1_0000_0000))
  }

  function HandleFinish(v: View): Handled {
    if !v.link.owner then Handled(v, Error(OperationNotPermitted))
    else
      var error := FinishError(v.engine);
      var w := v.(engine := Finish(v.engine), link := v.link.(owner := false));
      if error.Some? then Handled(Hold(w, false), Error(EngineError(error.value))) else Handled(Later(w, Reboot), Ok(0))
  }

  function HandleRevert(v: View, payload: Bytes): Handled {
    if payload != [] then Handled(v, Error(InvalidArgument))
    else
      var w := if v.link.owner && v.engine.active then Hold(Drop(v), false) else v;
      var f := w.engine.flash;
      if w.engine.active then Handled(w, Error(InProgress))
      else if !OtherSlot(f).hasImage then Handled(w, Error(NoSuchDevice))
      else if SetBootError(f, Other(f)).Some? then Handled(w, Error(IoFailure))
      else Handled(Later(w.(engine := w.engine.(flash := SetBoot(f, Other(f)))), Reboot), Ok(0))
  }

  function HandleMode(v: View, payload: Bytes): Handled {
    if |payload| != 1 || payload[0] > 1 then Handled(v, Error(InvalidArgument))
    else
      var mode := if payload[0] == 1 then Xac else Mouse;
      if mode == v.mode then Handled(v, Ok(0)) else Handled(Later(v, SwitchMode(mode)), Ok(1))
  }

  function Handle(v: View, r: Request, now: int): Handled {
    match r.kind
    case BeginFrame => HandleBegin(v, r.payload, now)
    case DataFrame => HandleData(v, r.payload, now)
    case FinishFrame => HandleFinish(v)
    case AbortFrame => Handled(if v.link.owner then Hold(Drop(v), false) else v, Ok(0))
    case ConfirmFrame => Handled(v.(engine := v.engine.(flash := MarkValid(v.engine.flash))), Ok(0))
    case RevertFrame => HandleRevert(v, r.payload)
    case RestartFrame => if r.payload != [] then Handled(v, Error(InvalidArgument)) else Handled(Later(v, Reboot), Ok(0))
    case ModeFrame => HandleMode(v, r.payload)
    case OtherFrame => Handled(v, NoReply)
  }

  /** Takes the deferred action; when the reply was not queued it is dropped, and with it the
      hold, unless an upload of this link still runs. */
  function AfterReply(v: View, queued: bool): View {
    var w := v.(link := v.link.(deferred := None));
    if v.link.deferred.Some? && !queued && !(v.link.owner && v.engine.active) then Hold(w, false)
    else if v.link.deferred.Some? && queued && v.link.deferred.value.SwitchMode? then
      w.(mode := v.link.deferred.value.mode)
    else w
  }

  function Expire(v: View, maxIdle: int, now: int): View {
    if !v.link.owner then v
    else if !v.engine.active then Hold(v.(link := v.link.(owner := false)), false)
    else if now - v.link.lastActivity < maxIdle then v
    else Hold(Drop(v), false)
  }

  function AbortUpdate(v: View): View {
    if v.link.owner then Hold(Drop(v), false) else v
  }

  // --------------------------------------------------------------------------
  // What every request keeps, whatever the other link does
  // --------------------------------------------------------------------------

  /** The engine's flash can boot at any moment, also in the middle of an upload. */
  predicate EngineSafe(e: Engine) {
    if e.active then Uploading(e.flash) else Bootable(e.flash)
  }

  /** `rival` says whether the other link owns the session. */
  predicate Consistent(v: View, rival: bool) {
    && EngineSafe(v.engine)
    && v.engine.active == (v.link.owner || rival)
    && !(v.link.owner && rival)
    && (v.link.owner ==> v.link.holding)
  }

  /** The part of the counter that is not this link's. */
  function Foreign(v: View): int {
    v.holds - Count(v.link.holding)
  }

  /** A link never releases another's hold nor disturbs another's session. */
  predicate LeavesOthersAlone(v: View, w: View, rival: bool) {
    && Foreign(w) == Foreign(v)
    && (rival ==> w.engine.active && w.engine.image == v.engine.image && w.engine.descSeen == v.engine.descSeen)
  }

  lemma WriteKeepsSafe(e: Engine, data: Bytes)
    requires EngineSafe(e) && e.active
    ensures EngineSafe(Write(e, data))
  {
    var desc := ParseDescriptor(e.image + data);
    if desc.Some? {
      UploadKeepsBootable(e.flash, desc.value);
    }
  }

  lemma EndKeepsSafe(e: Engine)
    requires EngineSafe(e)
    ensures EngineSafe(Abort(e)) && EngineSafe(Finish(e))
  {
    if FinishError(e).None? {
      UploadKeepsBootable(e.flash, ParseDescriptor(e.image).value);
    }
  }

  lemma BeginKeepsConsistent(v: View, payload: Bytes, now: int, rival: bool)
    requires Consistent(v, rival)
    ensures Consistent(HandleBegin(v, payload, now).view, rival)
    ensures LeavesOthersAlone(v, HandleBegin(v, payload, now).view, rival)
  {
    EndKeepsSafe(v.engine);
    UploadKeepsBootable(v.engine.flash, []);
  }

  lemma DataKeepsConsistent(v: View, payload: Bytes, now: int, rival: bool)
    requires Consistent(v, rival)
    ensures Consistent(HandleData(v, payload, now).view, rival)
    ensures LeavesOthersAlone(v, HandleData(v, payload, now).view, rival)
  {
    if v.engine.active && |payload| > 4 {
      WriteKeepsSafe(v.engine, payload[4..]);
    }
  }

  lemma RevertKeepsConsistent(v: View, payload: Bytes, rival: bool)
    requires Consistent(v, rival)
    ensures Consistent(HandleRevert(v, payload).view, rival)
    ensures LeavesOthersAlone(v, HandleRevert(v, payload).view, rival)
  {
    EndKeepsSafe(v.engine);
    RunningKeepsBootable(v.engine.flash);
  }

  lemma HandleKeepsConsistent(v: View, r: Request, now: int, rival: bool)
    requires Consistent(v, rival)
    ensures Consistent(Handle(v, r, now).view, rival)
    ensures LeavesOthersAlone(v, Handle(v, r, now).view, rival)
  {
    match r.kind
    case BeginFrame => BeginKeepsConsistent(v, r.payload, now, rival);
    case DataFrame => DataKeepsConsistent(v, r.payload, now, rival);
    case FinishFrame => EndKeepsSafe(v.engine);
    case AbortFrame => EndKeepsSafe(v.engine);
    case ConfirmFrame =>
      RunningKeepsBootable(v.engine.flash);
      UploadKeepsBootable(v.engine.flash, []);
    case RevertFrame => RevertKeepsConsistent(v, r.payload, rival);
    case _ =>
  }

  lemma OthersKeepConsistent(v: View, queued: bool, maxIdle: int, now: int, rival: bool)
    requires Consistent(v, rival)
    ensures Consistent(AfterReply(v, queued), rival) && LeavesOthersAlone(v, AfterReply(v, queued), rival)
    ensures Consistent(Expire(v, maxIdle, now), rival) && LeavesOthersAlone(v, Expire(v, maxIdle, now), rival)
    ensures Consistent(AbortUpdate(v), rival) && LeavesOthersAlone(v, AbortUpdate(v), rival)
  {
    EndKeepsSafe(v.engine);
  }
}
