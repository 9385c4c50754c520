// The command interface: checks a request, dispatches it to the control context or to the
// firmware device, and leaves the reply in the buffer the request came in.
module CmdInterfaces {
  import opened Bytes
  import opened Base
  import opened Payloads
  import opened Control
  import opened ControlLaws
  import opened ControlContexts
  import opened FdState
  import opened FdHandlers
  import opened FdHandlerLaws
  import opened FdContext

  const PLDM_MSG_OFFSET := 1

  /** Tables that only name the two types this interface serves; dispatch panics on others. */
  predicate ServedOnly(caps: seq<Capability>) {
    forall cap :: cap in caps ==> cap.pldmType == TYPE_BASE || cap.pldmType == TYPE_FW_UPDATE
  }

  /** A processed request: the payload, the handler's result, the terminus id and the protocol
      action of the firmware device, if it was asked. */
  datatype Processed = Processed(reply: Handled, tid: byte, acts: seq<Action>)

  function Process(caps: seq<Capability>, tid: byte, s: Fd, payload: seq<byte>, ops: Platform): Processed {
    match Preprocess(caps, payload)
    case Err(code) => Processed(Failure(payload, code), tid, [])
    case Ok((t, c)) =>
      if t == TYPE_BASE then Processed(ControlCommand(c, caps, tid, payload), TidAfter(c, tid, payload), [])
      else
        var o := Command(c, s, payload, ops);
        Processed(Handled(o.payload, o.result), tid, [o.act])
  }

  lemma PassedRequest(caps: seq<Capability>, payload: seq<byte>)
    requires ServedOnly(caps) && Preprocess(caps, payload).Ok?
    ensures var (t, c) := Preprocess(caps, payload).value;
      && |payload| >= HEADER_LEN && t == PldmType(payload[1]) && c == payload[2]
      && (t == TYPE_BASE || t == TYPE_FW_UPDATE)
  {
  }

  /** Whatever arrives, a reply repeats its instance id, type and command and is marked as a
      response; when no reply goes out the payload is as it was. */
  lemma ProcessAnswers(caps: seq<Capability>, tid: byte, s: Fd, payload: seq<byte>, ops: Platform)
    requires ServedOnly(caps)
    ensures Echoes(payload, Process(caps, tid, s, payload, ops).reply)
  {
    hide Command, ControlCommand, Echoes, Failure, Preprocess;
    match Preprocess(caps, payload)
    case Err(code) => FailureEchoes(payload, code);
    case Ok((t, c)) =>
      PassedRequest(caps, payload);
      if t == TYPE_BASE {
        ControlAnswers(c, caps, tid, payload);
      } else {
        CommandAnswers(c, s, payload, ops);
      }
  }

  /** A command outside the table is refused with UNSUPPORTED_PLDM_CMD, an unlisted type with
      INVALID_PLDM_TYPE, and neither reaches the firmware device or the terminus id. */
  lemma UnlistedIsRefused(caps: seq<Capability>, tid: byte, s: Fd, payload: seq<byte>, ops: Platform)
    requires |payload| >= FAILURE_RESP_LEN && IsRequest(payload[0]) && IsHeaderVersionValid(payload[1])
    ensures var t := PldmType(payload[1]);
      var o := Process(caps, tid, s, payload, ops);
      && (t !in TYPE_CODES || !IsSupportedType(caps, t) ==>
            o.reply.result == Ok(4) && o.reply.payload[3] == INVALID_PLDM_TYPE && o.acts == [] && o.tid == tid)
      && (t in TYPE_CODES && IsSupportedType(caps, t) && !IsSupportedCommand(caps, t, payload[2]) ==>
            o.reply.result == Ok(4) && o.reply.payload[3] == UNSUPPORTED_PLDM_CMD && o.acts == [] && o.tid == tid)
  {
  }

  class CmdInterface {
    const ctrl: ControlContext
    const fd: FirmwareDeviceContext
    var busy: bool

    constructor (capabilities: seq<Capability>, fd: FirmwareDeviceContext)
      ensures fresh(ctrl) && ctrl.capabilities == capabilities && ctrl.tid == UNASSIGNED_TID
      ensures this.fd == fd && !busy
    {
      ctrl := new ControlContext(capabilities);
      this.fd := fd;
      busy := false;
    }

    method ProcessRequest(msgBuf: array<byte>, ops: Platform) returns (r: Result<nat, HandlerError>)
      requires fd.Valid() && msgBuf.Length >= PLDM_MSG_OFFSET && ServedOnly(ctrl.capabilities)
      modifies this, ctrl, fd, fd.internal, msgBuf
      ensures fd.Valid()
      ensures old(busy) ==>
        && r == Err(NotReady) && busy && msgBuf[..] == old(msgBuf[..]) && ctrl.tid == old(ctrl.tid)
        && fd.trace == old(fd.trace)
      ensures !old(busy) ==>
        var o := Process(ctrl.capabilities, old(ctrl.tid), old(fd.internal.Model()),
                         old(msgBuf[PLDM_MSG_OFFSET..]), ops);
        && !busy && ctrl.tid == o.tid && fd.trace == old(fd.trace) + o.acts
        && msgBuf[..] == old(msgBuf[..PLDM_MSG_OFFSET]) + o.reply.payload
        && r == (match o.reply.result case Ok(n) => Ok(PLDM_MSG_OFFSET + n) case Err(e) => Err(e))
      ensures r.Ok? ==> PLDM_MSG_OFFSET + FAILURE_RESP_LEN <= r.value <= msgBuf.Length
      ensures !old(busy) ==>
        Echoes(old(msgBuf[PLDM_MSG_OFFSET..]), Handled(msgBuf[PLDM_MSG_OFFSET..],
                                                       if r.Ok? then Ok(r.value - PLDM_MSG_OFFSET) else Err(r.error)))
    {
      hide Command, ControlCommand, Preprocess, After, Legal, IsInitial;
      if busy {
        return Err(NotReady);
      }
      busy := true;
      ghost var was, request := msgBuf[..], msgBuf[PLDM_MSG_OFFSET..];
      ghost var o := Process(ctrl.capabilities, ctrl.tid, fd.internal.Model(), request, ops);
      ProcessAnswers(ctrl.capabilities, ctrl.tid, fd.internal.Model(), request, ops);
      var n;
      var passed := PreprocessRequest(msgBuf, PLDM_MSG_OFFSET);
      if passed.Err? {
        busy := false;
        n := GenerateFailureResponse(msgBuf, PLDM_MSG_OFFSET, passed.error);
      } else {
        var (pldmType, opcode) := passed.value;
        PassedRequest(ctrl.capabilities, request);
        if pldmType == TYPE_BASE {
          n := ProcessControlCmd(opcode, msgBuf, PLDM_MSG_OFFSET);
        } else {
          n := ProcessFwUpdateCmd(opcode, msgBuf, PLDM_MSG_OFFSET, ops);
        }
        busy := false;
      }
      assert msgBuf[PLDM_MSG_OFFSET..] == o.reply.payload;
      return match n case Ok(bytes) => Ok(PLDM_MSG_OFFSET + bytes) case Err(e) => Err(e);
    }

    method PreprocessRequest(buffer: array<byte>, at: nat) returns (r: Result<(TypeCode, byte), byte>)
      requires at <= buffer.Length
      ensures r == Preprocess(ctrl.capabilities, buffer[at..])
    {
      hide IsSupportedType, IsSupportedCommand;
      if buffer.Length - at < HEADER_LEN {
        return Err(INVALID_DATA);
      }
      if !(IsRequest(buffer[at]) && IsHeaderVersionValid(buffer[at + 1])) {
        return Err(INVALID_DATA);
      }
      var pldmType := PldmType(buffer[at + 1]);
      if pldmType !in TYPE_CODES {
        return Err(INVALID_PLDM_TYPE);
      }
      if !IsSupportedType(ctrl.capabilities, pldmType) {
        return Err(INVALID_PLDM_TYPE);
      }
      var opcode := buffer[at + 2];
      if IsSupportedCommand(ctrl.capabilities, pldmType, opcode) {
        return Ok((pldmType, opcode));
      }
      return Err(UNSUPPORTED_PLDM_CMD);
    }

    method ProcessControlCmd(opcode: byte, buffer: array<byte>, at: nat) returns (r: Result<nat, HandlerError>)
      requires at <= buffer.Length
      modifies ctrl, buffer
      ensures Replied(ControlCommand(opcode, ctrl.capabilities, old(ctrl.tid), old(buffer[at..])), buffer, at, r)
      ensures ctrl.tid == TidAfter(opcode, old(ctrl.tid), old(buffer[at..]))
    {
      hide GetTid, SetTid, GetPldmVersion, GetPldmTypes, GetPldmCommands;
      if opcode == CMD_GET_TID {
        r := ctrl.GetTidRsp(buffer, at);
      } else if opcode == CMD_SET_TID {
        r := ctrl.SetTidRsp(buffer, at);
      } else if opcode == CMD_GET_PLDM_TYPES {
        r := ctrl.GetPldmTypesRsp(buffer, at);
      } else if opcode == CMD_GET_PLDM_COMMANDS {
        r := ctrl.GetPldmCommandsRsp(buffer, at);
      } else if opcode == CMD_GET_PLDM_VERSION {
        r := ctrl.GetPldmVersionRsp(buffer, at);
      } else {
        r := GenerateFailureResponse(buffer, at, UNSUPPORTED_PLDM_CMD);
      }
    }

    method ProcessFwUpdateCmd(opcode: byte, buffer: array<byte>, at: nat, ops: Platform)
      returns (r: Result<nat, HandlerError>)
      requires fd.Valid() && at <= buffer.Length
      modifies fd, fd.internal, buffer
      ensures fd.Did(Command(opcode, old(fd.internal.Model()), old(buffer[at..]), ops), buffer, at, r)
    {
      hide QueryDeviceIdentifiers, GetFirmwareParameters, RequestUpdate, PassComponent, UpdateComponent,
        ActivateFirmware, CancelUpdateComponent, CancelUpdate, UpdateSecurityRevision, GetStatus,
        ActivatePendingComponentImage, After, Legal;
      if opcode == 0x01 {
        r := fd.QueryDevidRsp(buffer, at, ops);
      } else if opcode == 0x02 {
        r := fd.GetFirmwareParametersRsp(buffer, at, ops);
      } else if opcode == 0x10 {
        r := fd.RequestUpdateRsp(buffer, at, ops);
      } else if opcode == 0x13 {
        r := fd.PassComponentRsp(buffer, at, ops);
      } else if opcode == 0x14 {
        r := fd.UpdateComponentRsp(buffer, at, ops);
      } else if opcode == 0x1A {
        r := fd.ActivateFirmwareRsp(buffer, at, ops);
      } else if opcode == 0x1C {
        r := fd.CancelUpdateComponentRsp(buffer, at, ops);
      } else if opcode == 0x1D {
        r := fd.CancelUpdateRsp(buffer, at, ops);
      } else if opcode == 0x22 {
        r := fd.UpdateSecurityRevisionRsp(buffer, at, ops);
      } else if opcode == 0x1B {
        r := fd.GetStatusRsp(buffer, at, ops);
      } else if opcode == 0x1F {
        r := fd.ActivatePendingComponentImageRsp(buffer, at, ops);
      } else {
        fd.Record(Skip);
        r := GenerateFailureResponse(buffer, at, UNSUPPORTED_PLDM_CMD);
      }
    }
  }
}
