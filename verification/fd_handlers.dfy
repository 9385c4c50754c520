// What each operation of the firmware device does to a payload buffer, what it returns
// and which protocol action it takes, given the platform's answers during that call.
module FdHandlers {
  import opened Bytes
  import opened Base
  import opened FirmwareParameters
  import opened FirmwareStrings
  import opened UpdateMessages
  import opened FdState
  import opened FdInvariant
  import D = Descriptors
  import DeviceIds

  const NOT_IN_UPDATE_MODE: byte := 0x80
  const ALREADY_IN_UPDATE_MODE: byte := 0x81
  const INVALID_TRANSFER_LENGTH: byte := 0x83
  const INVALID_STATE_FOR_COMMAND: byte := 0x84
  const RETRY_REQUEST_FW_DATA: byte := 0x89
  const ACTIVATION_NOT_REQUIRED: byte := 0x8B
  const ACTIVATE_PENDING_IMAGE_NOT_PERMITTED: byte := 0x92
  const UPDATE_SECURITY_REVISION_NOT_PERMITTED: byte := 0x95

  const BASELINE_TRANSFER_SIZE := 32
  const MAX_DESCRIPTORS_COUNT := 4
  const DOWNSTREAM_DEVICE: u16 := 0xFFFF

  // ---- The platform ----

  type ComponentResponseCode = b: byte | b <= 0x0b
  const COMP_CAN_BE_UPDATED: byte := 0

  type EncodableParams = p: Params | FirmwareParameters.Encodable(p) witness DEFAULT_PARAMS
  type EncodableDescriptor = d: D.Descriptor | D.Encodable(d) witness D.EMPTY_DESCRIPTOR
  type DescriptorArray = ds: seq<EncodableDescriptor> | |ds| == MAX_DESCRIPTORS_COUNT
    witness seq(MAX_DESCRIPTORS_COUNT, _ => D.EMPTY_DESCRIPTOR)

  datatype PendingResult = PendingActivated(estimatedTime: u16) | PendingNotRequired | PendingNotPermitted

  /** Everything the platform callbacks (`FdOps`) would answer during one operation. No
      callback is called twice in one operation, the clock aside. */
  datatype Platform = Platform(
    deviceIdentifiers: Called<(DescriptorArray, nat)>,
    firmwareParams: Called<EncodableParams>,
    xferSize: Called<nat>,
    handleComponent: Called<ComponentResponseCode>,
    downloadOffsetAndLength: Called<(nat, nat)>,
    downloadFwData: Called<TransferResult>,
    isDownloadComplete: bool,
    downloadProgress: Called<Percent>,
    verify: Called<(VerifyResult, Percent)>,
    apply: Called<(ApplyResult, Percent)>,
    activate: Called<(byte, u16)>,
    cancelUpdateComponent: Called<()>,
    pendingComponent: Called<PendingResult>,
    nonFunctional: Called<(bool, u64)>,
    securityRevision: Called<bool>,
    clock: Clock)

  /** The payload afterwards, the handler's return value and the protocol action. */
  datatype Outcome = Outcome(payload: seq<byte>, result: Result<nat, HandlerError>, act: Action)

  function Fail(payload: seq<byte>, code: byte, act: Action): Outcome {
    var r := Failure(payload, code);
    Outcome(r.payload, r.result, act)
  }

  function Broken(payload: seq<byte>, e: FdOpsError, act: Action): Outcome { Outcome(payload, Err(FdOps(e)), act) }

  /** Encodes a response; `done` happens only if it fits, `unsent` otherwise. */
  function Reply(payload: seq<byte>, command: byte, body: seq<byte>, done: Action, unsent: Action): Outcome
    requires |payload| >= HEADER_LEN
  {
    var message := ResponseHeader(InstanceId(payload[0]), TYPE_FW_UPDATE, command) + body;
    var r := Respond(payload, message);
    Outcome(r.payload, r.result, if |message| <= |payload| then done else unsent)
  }

  /** A request that is nothing but a header. */
  predicate HeaderOnly(payload: seq<byte>) { |payload| >= HEADER_LEN }

  // ---- Commands that leave the update state alone ----

  function QueryDeviceIdentifiers(payload: seq<byte>, ops: Platform): Outcome {
    if !HeaderOnly(payload) then Fail(payload, INVALID_LENGTH, Skip)
    else
      match ops.deviceIdentifiers
      case Fails(e) => Broken(payload, e, Skip)
      case Returns((ds, count)) =>
        if count == 0 || count > MAX_DESCRIPTORS_COUNT then Broken(payload, DeviceIdentifiersError, Skip)
        else
          match DeviceIds.New(InstanceId(payload[0]), SUCCESS, ds[0], ds[1..count])
          case None => Outcome(payload, Err(PldmCommon), Skip)
          case Some(r) =>
            var reply := Respond(payload, DeviceIds.Wire(r));
            Outcome(reply.payload, reply.result, Skip)
  }

  function GetFirmwareParameters(payload: seq<byte>, ops: Platform): Outcome {
    if !HeaderOnly(payload) then Fail(payload, INVALID_LENGTH, Skip)
    else
      match ops.firmwareParams
      case Fails(e) => Broken(payload, e, Skip)
      case Returns(p) => Reply(payload, 0x02, [SUCCESS] + FirmwareParameters.Wire(p), Skip, Skip)
  }

  /** The request record as GetStatus reports it. */
  function AuxState(s: Fd): (byte, byte) {
    match s.req.state
    case Unused => (3, 0)
    case Sent => (0, 0)
    case Ready => if s.req.complete then (1, 0) else (0, 0)
    case Failed => (2, match s.req.result case None => 0x0a case Some(code) => code)
  }

  function ProgressOf(s: Fd, ops: Platform): byte {
    match s.state
    case Download => (match ops.downloadProgress case Returns(p) => p case Fails(_) => 101)
    case Verify => if s.phase.VerifyPhase? then s.phase.progress else 101
    case Apply => if s.phase.ApplyPhase? then s.phase.progress else 101
    case _ => 101
  }

  function GetStatus(s: Fd, payload: seq<byte>, ops: Platform): Outcome {
    if !HeaderOnly(payload) then Fail(payload, INVALID_LENGTH, Skip)
    else
      Reply(payload, 0x1B,
            [SUCCESS, StateCode(s.state), StateCode(s.prev), AuxState(s).0, AuxState(s).1,
             ProgressOf(s, ops), ReasonCode(s.reason)] + Le32(s.flags % 2),
            Skip, Skip)
  }

  /** The guards that ActivatePendingComponentImage and UpdateSecurityRevision share. */
  function ComponentCommand(s: Fd, payload: seq<byte>, ops: Platform): Result<(), Outcome> {
    if s.state != Idle then Err(Fail(payload, INVALID_STATE_FOR_COMMAND, Skip))
    else if |payload| < 8 then Err(Fail(payload, INVALID_LENGTH, Skip))
    else if FromLe16(payload[3..]) == DOWNSTREAM_DEVICE then Err(Fail(payload, INVALID_DATA, Skip))
    else
      match ops.firmwareParams
      case Fails(e) => Err(Broken(payload, e, Skip))
      case Returns(_) => Ok(())
  }

  /** `PendingComponentResult::into_response`: a time only goes out with success. */
  function PendingBody(r: PendingResult): seq<byte> {
    match r
    case PendingActivated(time) => [SUCCESS] + Le16(time)
    case PendingNotRequired => [ACTIVATION_NOT_REQUIRED] + Le16(0)
    case PendingNotPermitted => [ACTIVATE_PENDING_IMAGE_NOT_PERMITTED] + Le16(0)
  }

  function ActivatePendingComponentImage(s: Fd, payload: seq<byte>, ops: Platform): Outcome {
    match ComponentCommand(s, payload, ops)
    case Err(refusal) => refusal
    case Ok(_) =>
      match ops.pendingComponent
      case Fails(e) => Broken(payload, e, Skip)
      case Returns(r) =>
        Reply(payload, 0x1F, PendingBody(r), Skip, Skip)
  }

  function UpdateSecurityRevision(s: Fd, payload: seq<byte>, ops: Platform): Outcome {
    match ComponentCommand(s, payload, ops)
    case Err(refusal) => refusal
    case Ok(_) =>
      match ops.securityRevision
      case Fails(e) => Broken(payload, e, Skip)
      case Returns(updated) =>
        Reply(payload, 0x22, [if updated then SUCCESS else UPDATE_SECURITY_REVISION_NOT_PERMITTED], Skip, Skip)
  }

  // ---- Commands that drive the update ----

  function RequestUpdate(s: Fd, payload: seq<byte>, ops: Platform): Outcome {
    var now := ops.clock.check;
    if s.state != Idle then Fail(payload, ALREADY_IN_UPDATE_MODE, Skip)
    else
      match ParseRequest(payload, REQUEST_UPDATE_FIXED_LEN)
      case Err(e) => Fail(payload, DecodeFailureCode(e), Touch(now))
      case Ok(req) =>
        var offered := FromLe32(req.fixed[3..]);
        if offered as int < BASELINE_TRANSFER_SIZE then Fail(payload, INVALID_TRANSFER_LENGTH, Touch(now))
        else
          match ops.xferSize
          case Fails(e) => Broken(payload, e, Touch(now))
          case Returns(size) =>
            var xfer: u32 := size % U32_MODULUS;
            // The reply is half as long as any request that decodes, so it fits.
            Reply(payload, 0x10, [SUCCESS] + Le16(0) + [0], Negotiate(now, xfer), Negotiate(now, xfer))
  }

  predicate IsTransferFlag(flag: byte) { flag in {1, 2, 4, 5} }

  predicate IsLastTransfer(flag: byte) { flag in {4, 5} }

  function PassComponent(s: Fd, payload: seq<byte>, ops: Platform): Outcome {
    var now := ops.clock.check;
    if s.state != LearnComponents then Fail(payload, INVALID_STATE_FOR_COMMAND, Skip)
    else
      match ParseRequest(payload, PASS_COMPONENT_FIXED_LEN)
      case Err(e) => Fail(payload, DecodeFailureCode(e), Touch(now))
      case Ok(req) =>
        if !IsTransferFlag(req.fixed[3]) then Fail(payload, INVALID_DATA, Touch(now))
        else
          match ops.firmwareParams
          case Fails(e) => Broken(payload, e, Touch(now))
          case Returns(_) =>
            match ops.handleComponent
            case Fails(e) => Broken(payload, e, Touch(now))
            case Returns(code) =>
              Reply(payload, 0x13, [SUCCESS, if code == COMP_CAN_BE_UPDATED then 0 else 1, code],
                    if IsLastTransfer(req.fixed[3]) then LastPassed(now) else Touch(now), Touch(now))
  }

  /** The component named by a decoded UpdateComponent request. */
  function ComponentOf(req: StringRequest): Component
    requires |req.fixed| == UPDATE_COMPONENT_FIXED_LEN
  {
    var f := req.fixed;
    Component(FromLe16(f[3..]), FromLe16(f[5..]), f[7], FromLe32(f[8..]),
              FirmwareString(f[20], f[21], req.str), Some(FromLe32(f[12..])), Some(FromLe32(f[16..])))
  }

  function UpdateComponent(s: Fd, payload: seq<byte>, ops: Platform): Outcome {
    var now := ops.clock.check;
    if s.state != ReadyXfer then Fail(payload, INVALID_STATE_FOR_COMMAND, Skip)
    else
      match ParseRequest(payload, UPDATE_COMPONENT_FIXED_LEN)
      case Err(e) => Fail(payload, DecodeFailureCode(e), Touch(now))
      case Ok(req) =>
        var comp := ComponentOf(req);
        var flags := comp.optionFlags.value;
        var stored := Store(now, comp, flags, false);
        match ops.firmwareParams
        case Fails(e) => Broken(payload, e, stored)
        case Returns(_) =>
          match ops.handleComponent
          case Fails(e) => Broken(payload, e, stored)
          case Returns(code) =>
            var accepted := code == COMP_CAN_BE_UPDATED;
            Reply(payload, 0x14, [SUCCESS, if accepted then 0 else 1, code] + (Le32(flags) + Le16(0)),
                  Store(now, comp, flags, accepted), stored)
  }

  function ActivateFirmware(s: Fd, payload: seq<byte>, ops: Platform): Outcome {
    if s.state != ReadyXfer then Fail(payload, INVALID_STATE_FOR_COMMAND, Skip)
    else if |payload| < 4 then Fail(payload, INVALID_LENGTH, Skip)
    else if payload[3] > 1 then Fail(payload, INVALID_DATA, Skip)
    else
      match ops.activate
      case Fails(e) => Broken(payload, e, Skip)
      case Returns((code, time)) =>
        Reply(payload, 0x1A, [code] + Le16(time),
              if code == SUCCESS || code == ACTIVATION_NOT_REQUIRED then ActivateAll else Skip, Skip)
  }

  function CancelUpdateComponent(s: Fd, payload: seq<byte>, ops: Platform): Outcome {
    if s.state == Idle then Fail(payload, NOT_IN_UPDATE_MODE, Skip)
    else if !InPhase(s) then Fail(payload, INVALID_STATE_FOR_COMMAND, Skip)
    else if Cancellable(s) && ops.cancelUpdateComponent.Fails? then
      Broken(payload, ops.cancelUpdateComponent.error, Skip)
    else
      var unsent := if Cancellable(s) then CancelLost(None) else Skip;
      if !HeaderOnly(payload) then Fail(payload, INVALID_LENGTH, unsent)
      else
        Reply(payload, 0x1C, [if Cancellable(s) then SUCCESS else ERROR],
              if Cancellable(s) then CancelComponent else Skip, unsent)
  }

  function CancelUpdate(s: Fd, payload: seq<byte>, ops: Platform): Outcome {
    var now := ops.clock.check;
    if s.state == Idle then Fail(payload, NOT_IN_UPDATE_MODE, Skip)
    else if Cancellable(s) && ops.cancelUpdateComponent.Fails? then
      Broken(payload, ops.cancelUpdateComponent.error, CancelTouch(now))
    else
      var unsent := if Cancellable(s) then CancelLost(Some(now)) else CancelTouch(now);
      if !HeaderOnly(payload) then Fail(payload, INVALID_LENGTH, unsent)
      else
        match ops.nonFunctional
        case Fails(e) => Broken(payload, e, unsent)
        case Returns((notFunctioning, bitmap)) =>
          Reply(payload, 0x1D,
                [if Cancellable(s) then SUCCESS else ERROR, if notFunctioning then 1 else 0] + Le64(bitmap),
                if Cancellable(s) then CancelAll(now) else CancelTouch(now), unsent)
  }

  // ---- Requests the device sends ----

  function QuietError(payload: seq<byte>, act: Action): Outcome { Outcome(payload, Err(FdInitiatorModeError), act) }

  /** Writes a request; the instance id was allocated whether or not it fits. */
  function Send(payload: seq<byte>, message: seq<byte>, sent: Action, unsent: Action): Outcome {
    match Overwrite(payload, message)
    case Ok(p) => Outcome(p, Ok(|message|), sent)
    case Err(e) => Outcome(payload, Err(Codec(e)), unsent)
  }

  function DeviceRequest(s: Fd, command: byte, body: seq<byte>): seq<byte> {
    RequestHeader(NextInstanceId(s.req.instanceId), TYPE_FW_UPDATE, command) + body
  }

  function ProgressDownload(s: Fd, payload: seq<byte>, ops: Platform): Outcome
    requires Inv(s) && s.state == Download
  {
    var at := ops.clock;
    if !MaySend(s, at) then QuietError(payload, Skip)
    else if s.req.complete then
      Send(payload, DeviceRequest(s, CMD_TRANSFER_COMPLETE, [s.req.result.value]),
           ReportTransfer(at), DownloadUnsent(at))
    else
      match ops.downloadOffsetAndLength
      case Fails(e) => Broken(payload, e, DownloadUnsent(at))
      case Returns((o, l)) =>
        var offset: u32, length: u32 := o % U32_MODULUS, l % U32_MODULUS;
        match DownloadChunk(s, offset, length)
        case None => QuietError(payload, DownloadUnsent(at))
        case Some((chunkOffset, chunkLength)) =>
          Send(payload, DeviceRequest(s, CMD_REQUEST_FW_DATA, Le32(chunkOffset) + Le32(chunkLength)),
               Fetch(at, offset, length), DownloadUnsent(at))
  }

  function CompleteBody(state: DeviceState, code: byte): seq<byte> {
    if state == Apply then [code] + Le16(0) else [code]
  }

  /** Verify and Apply share their shape. A retry sends the generic error without asking the
      platform again. */
  function ProgressWork(s: Fd, payload: seq<byte>, ops: Platform, called: Called<(byte, Percent)>): Outcome
    requires s.state in {Verify, Apply}
  {
    var at := ops.clock;
    if !MaySend(s, at) then QuietError(payload, Skip)
    else if s.req.complete then
      var retry := (out: Outgoing) => Work(at, s.state, s.comp, None, out);
      Send(payload, DeviceRequest(s, CompleteCommand(s.state), CompleteBody(s.state, RESULT_GENERIC_ERROR)),
           retry(OnTheWire), retry(NotSent))
    else
      match called
      case Fails(e) => Broken(payload, e, WorkBroken(at, s.state, s.comp))
      case Returns((code, percent)) =>
        var worked := (out: Outgoing) => Work(at, s.state, s.comp, Some((code, percent)), out);
        if code == RESULT_SUCCESS && percent < 100 then Outcome(payload, Ok(0), worked(Waiting))
        else
          Send(payload, DeviceRequest(s, CompleteCommand(s.state), CompleteBody(s.state, code)),
               worked(OnTheWire), worked(NotSent))
  }

  function VerifyCall(ops: Platform): Called<(byte, Percent)> {
    match ops.verify case Returns((code, p)) => Returns((code, p)) case Fails(e) => Fails(e)
  }

  function ApplyCall(ops: Platform): Called<(byte, Percent)> {
    match ops.apply case Returns((code, p)) => Returns((code, p)) case Fails(e) => Fails(e)
  }

  /** `fd_progress`: the T1 check, then the phase's own step. */
  function Progress(s: Fd, payload: seq<byte>, ops: Platform): Outcome
    requires Inv(s)
  {
    if !InPhase(s) then QuietError(payload, Skip)
    else if s.req.state == Sent && Overdue(s, ops.clock.check) then
      match ops.cancelUpdateComponent
      case Fails(e) => Broken(payload, e, Skip)
      case Returns(_) => Outcome(payload, Err(T1Timeout), TimedOut(ops.clock.check))
    else
      match s.state
      case Download => ProgressDownload(s, payload, ops)
      case Verify => ProgressWork(s, payload, ops, VerifyCall(ops))
      case Apply => ProgressWork(s, payload, ops, ApplyCall(ops))
      case _ => QuietError(payload, Skip)
  }

  // ---- Responses the device receives ----

  predicate Matches(s: Fd, payload: seq<byte>)
    requires |payload| >= HEADER_LEN
  {
    s.req.state == Sent && s.req.instanceId == Some(InstanceId(payload[0])) && s.req.command == Some(payload[2])
  }

  /** `process_request_fw_data_rsp` */
  function FirmwareData(s: Fd, payload: seq<byte>, ops: Platform): (Result<(), HandlerError>, Answer)
    requires Inv(s)
  {
    if s.state != Download || s.req.complete then (Err(FdInitiatorModeError), NoEffect)
    else if |payload| < 4 then (Err(Codec(BufferTooShort)), NoEffect)
    else if payload[3] == RETRY_REQUEST_FW_DATA then (Ok(()), NoEffect)
    else if payload[3] != SUCCESS then (Ok(()), AbortedByUa)
    else
      var length := s.phase.length as int;
      if |payload| < 4 + length then (Err(Codec(BufferTooShort)), NoEffect)
      else
        (match ops.downloadFwData case Fails(e) => Err(FdOps(e)) case Returns(_) => Ok(()),
         Data(s.comp, s.phase.offset, payload[4..4 + length], ops.downloadFwData, ops.isDownloadComplete))
  }

  /** `process_transfer_complete_rsp` and its two siblings, which differ in their state. */
  function CompleteAnswer(s: Fd, state: DeviceState): (Result<(), HandlerError>, Answer) {
    if s.state != state || s.req.state != Sent || !s.req.complete then (Err(FdInitiatorModeError), NoEffect)
    else (Ok(()), Acknowledged)
  }

  function HandleResponse(s: Fd, payload: seq<byte>, ops: Platform): (Result<(), HandlerError>, Action)
    requires Inv(s)
  {
    if |payload| < HEADER_LEN then (Err(Codec(BufferTooShort)), Skip)
    else if !Matches(s, payload) then (Err(FdInitiatorModeError), Skip)
    else
      var command := payload[2];
      var (result, answer) :=
        if command == CMD_REQUEST_FW_DATA then FirmwareData(s, payload, ops)
        else if command == CMD_TRANSFER_COMPLETE then CompleteAnswer(s, Download)
        else if command == CMD_VERIFY_COMPLETE then CompleteAnswer(s, Verify)
        else if command == CMD_APPLY_COMPLETE then CompleteAnswer(s, Apply)
        else (Err(FdInitiatorModeError), NoEffect);
      (result, Answered(ops.clock.check, InstanceId(payload[0]), command, answer))
  }

  // ---- Dispatch over the update commands ----

  function Command(opcode: byte, s: Fd, payload: seq<byte>, ops: Platform): Outcome {
    match opcode
    case 0x01 => QueryDeviceIdentifiers(payload, ops)
    case 0x02 => GetFirmwareParameters(payload, ops)
    case 0x10 => RequestUpdate(s, payload, ops)
    case 0x13 => PassComponent(s, payload, ops)
    case 0x14 => UpdateComponent(s, payload, ops)
    case 0x1A => ActivateFirmware(s, payload, ops)
    case 0x1B => GetStatus(s, payload, ops)
    case 0x1C => CancelUpdateComponent(s, payload, ops)
    case 0x1D => CancelUpdate(s, payload, ops)
    case 0x1F => ActivatePendingComponentImage(s, payload, ops)
    case 0x22 => UpdateSecurityRevision(s, payload, ops)
    case _ => Fail(payload, UNSUPPORTED_PLDM_CMD, Skip)
  }
}
