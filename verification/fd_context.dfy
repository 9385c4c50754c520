// The firmware device: a record of mutable state and the operations that answer commands,
// send requests and take responses, each writing into the buffer it is given. A ghost
// trace collects the protocol action of every operation.
module FdContext {
  import opened Bytes
  import opened Base
  import opened Payloads
  import opened UpdateMessages
  import opened UpdateMessagesCodec
  import opened FdState
  import opened FdInvariant
  import opened FdHandlers
  import opened FdHandlerLaws
  import opened FdInternals
  import opened FdRuns
  import FirmwareParametersCodec
  import DeviceIds
  import DeviceIdsCodec

  lemma ComponentFlags(req: StringRequest)
    requires |req.fixed| == UPDATE_COMPONENT_FIXED_LEN
    ensures ComponentOf(req).optionFlags == Some(FromLe32(req.fixed[16..]))
  {
  }

  lemma UntailedResponse(r: UpdateComponentResponse)
    requires r.opaqueDataMaxTransfer.None?
    ensures UpdateComponentResponseWire(r) ==
      r.hdr + ([r.completionCode, r.compatibility, r.compatibilityCode] + (Le32(r.flags) + Le16(r.timeBeforeRequest)))
  {
  }

  lemma UntailedUpdateResponse(r: RequestUpdateResponse)
    requires r.pkgDataMaxTransfer.None? && r.willSendPkgDataCmd != 2
    ensures RequestUpdateResponseWire(r) == r.hdr + ([r.completionCode] + Le16(r.metaDataLen) + [r.willSendPkgDataCmd])
    ensures |RequestUpdateResponseWire(r)| == RequestUpdateResponseSize(r)
  {
  }

  lemma CancelUpdateComponentIsEnabled(s: Fd, payload: seq<byte>, ops: Platform)
    ensures Enabled(s, CancelUpdateComponent(s, payload, ops).act)
  {
    CommandIsEnabled(0x1C, s, payload, ops);
  }

  lemma CancelUpdateIsEnabled(s: Fd, payload: seq<byte>, ops: Platform)
    ensures Enabled(s, CancelUpdate(s, payload, ops).act)
  {
    CommandIsEnabled(0x1D, s, payload, ops);
  }

  /** What the actions of a verify or apply step do, T1 refresh aside. */
  lemma WorkPerforms(s: Fd, at: Clock, during: DeviceState, call: Option<(byte, Percent)>)
    requires during in {Verify, Apply}
    ensures var t := if call.Some? then SetProgress(s, during, call.value.1) else s;
      var result := if call.Some? then call.value.0 else RESULT_GENERIC_ERROR;
      && t.t1Stamp == s.t1Stamp && t.req == s.req
      && Perform(s, Work(at, during, s.comp, call, Waiting)).(t1Stamp := s.t1Stamp) == t
      && Perform(s, Work(at, during, s.comp, call, NotSent)) == Allocate(t)
      && Perform(s, Work(at, during, s.comp, call, OnTheWire))
           == t.(req := Req(Sent, true, Some(result), Some(NextInstanceId(s.req.instanceId)),
                            Some(CompleteCommand(during)), Some(at.sent)))
      && Perform(s, WorkBroken(at, during, s.comp)) == s && Perform(s, Skip) == s
  {
  }

  lemma ChunkIgnoresId(s: Fd, offset: u32, length: u32)
    ensures DownloadChunk(Allocate(s), offset, length) == DownloadChunk(s, offset, length)
  {
  }

  lemma SentHasTime(s: Fd)
    requires Inv(s)
    ensures s.req.state == Sent ==> s.req.sentTime.Some?
  {
  }

  /** After a phase step T1 is refreshed exactly when platform work goes on without a request. */
  lemma RefreshedWhenWaiting(s: Fd, payload: seq<byte>, ops: Platform)
    requires Inv(s) && InPhase(s) && !(s.req.state == Sent && Overdue(s, ops.clock.check))
    ensures var o := Progress(s, payload, ops);
      var t := Perform(s, o.act);
      t.t1Stamp == if o.result.Ok? && s.state != Download && t.req.state != Sent then ops.clock.refresh else s.t1Stamp
  {
    hide HistoryFits, DownloadChunk, Le32;
  }

  /** Refreshing T1 first does not change how a response is taken. */
  lemma TouchedAnswers(s: Fd, payload: seq<byte>, ops: Platform)
    requires Inv(s)
    ensures var t := s.(t1Stamp := ops.clock.check);
      && Inv(t) && FirmwareData(t, payload, ops) == FirmwareData(s, payload, ops)
      && CompleteAnswer(t, Download) == CompleteAnswer(s, Download)
      && CompleteAnswer(t, Verify) == CompleteAnswer(s, Verify)
      && CompleteAnswer(t, Apply) == CompleteAnswer(s, Apply)
  {
  }

  class FirmwareDeviceContext {
    const internal: FdInternal
    ghost const start: Fd
    ghost var trace: seq<Action>

    /** The state is the one the trace leads to, and every step of the trace was allowed. */
    ghost predicate Valid()
      reads this, internal
    {
      IsInitial(start) && Legal(start, trace) && internal.Model() == After(start, trace)
    }

    constructor ()
      ensures Valid() && fresh(internal) && trace == []
      ensures internal.Model() == Initial(FD_MAX_XFER_SIZE, DEFAULT_FD_T1_TIMEOUT, DEFAULT_FD_T2_RETRY_TIME)
    {
      internal := new FdInternal(FD_MAX_XFER_SIZE, DEFAULT_FD_T1_TIMEOUT, DEFAULT_FD_T2_RETRY_TIME);
      start := Initial(FD_MAX_XFER_SIZE, DEFAULT_FD_T1_TIMEOUT, DEFAULT_FD_T2_RETRY_TIME);
      trace := [];
    }

    /** The operation took the outcome's action, left its payload in the buffer, and returned
        its result. */
    twostate predicate Did(o: Outcome, buffer: array<byte>, at: nat, new r: Result<nat, HandlerError>)
      requires at <= buffer.Length
      reads this, internal, buffer
    {
      Valid() && trace == old(trace) + [o.act] && Took(o, buffer, at, r, o.act)
    }

    /** What `Did` says of the state, the buffer and the result, and the action the body collected. */
    twostate predicate Took(o: Outcome, buffer: array<byte>, at: nat,
                            new r: Result<nat, HandlerError>, new act: Action)
      requires at <= buffer.Length
      reads internal, buffer
    {
      && internal.Model() == Perform(old(internal.Model()), o.act) && act == o.act
      && buffer[..] == old(buffer[..at]) + o.payload && r == o.result
    }

    /** Adds an action to the trace. An operation does so once: at the end with what its body read
        and did, or, where the change of state shows all there is to the action, at the start. */
    ghost method Record(act: Action)
      requires IsInitial(start) && Legal(start, trace) && Enabled(After(start, trace), act)
      modifies this`trace
      ensures trace == old(trace) + [act]
      ensures Legal(start, trace) && After(start, trace) == Perform(After(start, old(trace)), act)
    {
      trace := trace + [act];
      ExtendTrace(start, old(trace), act);
    }

    lemma ValidInv()
      requires Valid()
      ensures Inv(internal.Model())
    {
      ReachableInv(start, trace);
    }

    /** What the trace of a device in one of the three phases has behind it. */
    lemma PipelineBehind() returns (at: seq<nat>)
      requires Valid() && InPhase(internal.Model())
      ensures |at| == MilestonesBehind(internal.Model())
      ensures Pipeline(trace, at, internal.updateComp, internal.updateFlags)
    {
      at := PipelineOf(start, trace);
    }

    predicate IsUpdateMode()
      reads internal
    {
      internal.state != Idle
    }

    method SetFdT1Ts(now: nat)
      modifies internal
      ensures internal.Model() == old(internal.Model()).(t1Stamp := now)
    {
      internal.SetFdT1UpdateTs(now);
    }

    // ---- Commands ----

    method QueryDevidRsp(buffer: array<byte>, at: nat, ops: Platform) returns (r: Result<nat, HandlerError>)
      requires Valid() && at <= buffer.Length
      modifies this, internal, buffer
      ensures Did(QueryDeviceIdentifiers(old(buffer[at..]), ops), buffer, at, r)
    {
      hide After, Legal, DeviceIds.Wire;
      ghost var was := buffer[..];
      Record(QueryDeviceIdentifiers(buffer[at..], ops).act);
      if buffer.Length - at < HEADER_LEN {
        r := GenerateFailureResponse(buffer, at, INVALID_LENGTH);
        return;
      }
      var instanceId := InstanceId(buffer[at]);
      if ops.deviceIdentifiers.Fails? {
        return Err(FdOps(ops.deviceIdentifiers.error));
      }
      var (identifiers, count) := ops.deviceIdentifiers.value;
      if count == 0 || count > |identifiers| {
        return Err(FdOps(DeviceIdentifiersError));
      }
      var resp := DeviceIds.New(instanceId, SUCCESS, identifiers[0], identifiers[1..count]);
      if resp.None? {
        return Err(PldmCommon);
      }
      DeviceIds.ConstructorAgreesWithEncoder(instanceId, SUCCESS, identifiers[0], identifiers[1..count]);
      var n := DeviceIdsCodec.EncodeResponse(resp.value, buffer, at);
      var sent;
      r, sent := FinishReply(n, buffer, at, was, DeviceIds.Wire(resp.value));
    }

    method GetFirmwareParametersRsp(buffer: array<byte>, at: nat, ops: Platform) returns (r: Result<nat, HandlerError>)
      requires Valid() && at <= buffer.Length
      modifies this, internal, buffer
      ensures Did(GetFirmwareParameters(old(buffer[at..]), ops), buffer, at, r)
    {
      hide After, Legal, FirmwareParameters.Wire;
      ghost var was := buffer[..];
      Record(GetFirmwareParameters(buffer[at..], ops).act);
      if buffer.Length - at < HEADER_LEN {
        r := GenerateFailureResponse(buffer, at, INVALID_LENGTH);
        return;
      }
      if ops.firmwareParams.Fails? {
        return Err(FdOps(ops.firmwareParams.error));
      }
      var hdr := ResponseHeader(InstanceId(buffer[at]), TYPE_FW_UPDATE, 0x02);
      var params := ops.firmwareParams.value;
      var n := FirmwareParametersCodec.EncodeParamsResponse(hdr, SUCCESS, params, buffer, at);
      var sent;
      r, sent := FinishReply(n, buffer, at, was, hdr + ([SUCCESS] + FirmwareParameters.Wire(params)));
    }

    method RequestUpdateRsp(buffer: array<byte>, at: nat, ops: Platform) returns (r: Result<nat, HandlerError>)
      requires Valid() && at <= buffer.Length
      modifies this, internal, buffer
      ensures Did(RequestUpdate(old(internal.Model()), old(buffer[at..]), ops), buffer, at, r)
    {
      hide After, Legal, ParseRequest, FromLe32, Le16, Respond, Failure, RequestUpdateResponseWire;
      ghost var was := buffer[..];
      Record(RequestUpdate(internal.Model(), buffer[at..], ops).act);
      if IsUpdateMode() {
        r := GenerateFailureResponse(buffer, at, ALREADY_IN_UPDATE_MODE);
        return;
      }
      SetFdT1Ts(ops.clock.check);
      var req := DecodeRequest(buffer[at..], REQUEST_UPDATE_FIXED_LEN);
      if req.Err? {
        r := GenerateFailureResponse(buffer, at, DecodeFailureCode(req.error));
        return;
      }
      var uaTransferSize := FromLe32(req.value.fixed[3..]);
      if uaTransferSize as int < BASELINE_TRANSFER_SIZE {
        r := GenerateFailureResponse(buffer, at, INVALID_TRANSFER_LENGTH);
        return;
      }
      if ops.xferSize.Fails? {
        return Err(FdOps(ops.xferSize.error));
      }
      internal.SetXferSize(ops.xferSize.value);
      var resp := RequestUpdateResponse(
        ResponseHeader(InstanceId(buffer[at]), TYPE_FW_UPDATE, 0x10), SUCCESS, 0, 0, None);
      UntailedUpdateResponse(resp);
      var n := EncodeRequestUpdateResponse(resp, buffer, at);
      var sent;
      r, sent := FinishReply(n, buffer, at, was, RequestUpdateResponseWire(resp));
      if sent {
        internal.SetFdState(LearnComponents);
      }
    }

    method PassComponentRsp(buffer: array<byte>, at: nat, ops: Platform) returns (r: Result<nat, HandlerError>)
      requires Valid() && at <= buffer.Length
      modifies this, internal, buffer
      ensures Did(PassComponent(old(internal.Model()), old(buffer[at..]), ops), buffer, at, r)
    {
      hide After, Legal, ParseRequest;
      ghost var was := buffer[..];
      Record(PassComponent(internal.Model(), buffer[at..], ops).act);
      if internal.state != LearnComponents {
        r := GenerateFailureResponse(buffer, at, INVALID_STATE_FOR_COMMAND);
        return;
      }
      SetFdT1Ts(ops.clock.check);
      var req := DecodeRequest(buffer[at..], PASS_COMPONENT_FIXED_LEN);
      if req.Err? {
        r := GenerateFailureResponse(buffer, at, DecodeFailureCode(req.error));
        return;
      }
      var transferFlag := req.value.fixed[3];
      if !IsTransferFlag(transferFlag) {
        r := GenerateFailureResponse(buffer, at, INVALID_DATA);
        return;
      }
      if ops.firmwareParams.Fails? {
        return Err(FdOps(ops.firmwareParams.error));
      }
      if ops.handleComponent.Fails? {
        return Err(FdOps(ops.handleComponent.error));
      }
      var code := ops.handleComponent.value;
      var resp := ResponseHeader(InstanceId(buffer[at]), TYPE_FW_UPDATE, 0x13) +
                  [SUCCESS, if code == COMP_CAN_BE_UPDATED then 0 else 1, code];
      var n := EncodeMessage(resp, buffer, at);
      var sent;
      r, sent := FinishReply(n, buffer, at, was, resp);
      if sent && IsLastTransfer(transferFlag) {
        internal.SetFdState(ReadyXfer);
      }
    }

    method UpdateComponentRsp(buffer: array<byte>, at: nat, ops: Platform) returns (r: Result<nat, HandlerError>)
      requires Valid() && at <= buffer.Length
      modifies this, internal, buffer
      ensures Did(UpdateComponent(old(internal.Model()), old(buffer[at..]), ops), buffer, at, r)
    {
      hide After, Legal, ParseRequest, ComponentOf, FromLe32, Respond, Failure;
      ghost var was := buffer[..];
      Record(UpdateComponent(internal.Model(), buffer[at..], ops).act);
      if internal.state != ReadyXfer {
        r := GenerateFailureResponse(buffer, at, INVALID_STATE_FOR_COMMAND);
        return;
      }
      SetFdT1Ts(ops.clock.check);
      var req := DecodeRequest(buffer[at..], UPDATE_COMPONENT_FIXED_LEN);
      if req.Err? {
        r := GenerateFailureResponse(buffer, at, DecodeFailureCode(req.error));
        return;
      }
      var updateComp := ComponentOf(req.value);
      var flags := FromLe32(req.value.fixed[16..]);
      ComponentFlags(req.value);
      internal.SetComponent(updateComp);
      internal.SetUpdateFlags(flags);
      if ops.firmwareParams.Fails? {
        return Err(FdOps(ops.firmwareParams.error));
      }
      if ops.handleComponent.Fails? {
        return Err(FdOps(ops.handleComponent.error));
      }
      var code := ops.handleComponent.value;
      var resp := UpdateComponentResponse(
        ResponseHeader(InstanceId(buffer[at]), TYPE_FW_UPDATE, 0x14), SUCCESS,
        if code == COMP_CAN_BE_UPDATED then 0 else 1, code, flags, 0, None);
      UntailedResponse(resp);
      var n := EncodeUpdateComponentResponse(resp, buffer, at);
      var sent;
      r, sent := FinishReply(n, buffer, at, was, UpdateComponentResponseWire(resp));
      if sent && code == COMP_CAN_BE_UPDATED {
        StartDownload();
      }
    }

    /** Sets up the request record for the download and moves the state machine there. */
    method StartDownload()
      modifies internal
      ensures internal.Model() ==
        SetState(old(internal.Model()).(phase := DownloadPhase(0, 0), req := FreshReq(Ready)), Download)
    {
      internal.SetInitiatorMode(DownloadPhase(0, 0));
      internal.SetFdReq(Ready, false, None, None, None, None);
      internal.SetFdState(Download);
    }

    method ActivateFirmwareRsp(buffer: array<byte>, at: nat, ops: Platform) returns (r: Result<nat, HandlerError>)
      requires Valid() && at <= buffer.Length
      modifies this, internal, buffer
      ensures Did(ActivateFirmware(old(internal.Model()), old(buffer[at..]), ops), buffer, at, r)
    {
      hide After, Legal;
      ghost var was := buffer[..];
      Record(ActivateFirmware(internal.Model(), buffer[at..], ops).act);
      if internal.state != ReadyXfer {
        r := GenerateFailureResponse(buffer, at, INVALID_STATE_FOR_COMMAND);
        return;
      }
      if buffer.Length - at < 4 {
        r := GenerateFailureResponse(buffer, at, INVALID_LENGTH);
        return;
      }
      var selfContained := buffer[at + 3];
      if selfContained != 0 && selfContained != 1 {
        r := GenerateFailureResponse(buffer, at, INVALID_DATA);
        return;
      }
      if ops.activate.Fails? {
        return Err(FdOps(ops.activate.error));
      }
      var (code, time) := ops.activate.value;
      var resp := ResponseHeader(InstanceId(buffer[at]), TYPE_FW_UPDATE, 0x1A) + ([code] + Le16(time));
      var n := EncodeMessage(resp, buffer, at);
      var sent;
      r, sent := FinishReply(n, buffer, at, was, resp);
      if sent && (code == SUCCESS || code == ACTIVATION_NOT_REQUIRED) {
        internal.SetFdState(Activate);
        internal.SetFdIdle(Activated);
      }
    }

    /** Refuses a component behind a proxy; otherwise reads the firmware parameters. */
    method ComponentCommandParams(buffer: array<byte>, at: nat, classification: u16, ops: Platform)
      returns (r: Result<Option<nat>, HandlerError>)
      requires at <= buffer.Length
      modifies buffer
      ensures if classification == DOWNSTREAM_DEVICE then
                var f := Failure(old(buffer[at..]), INVALID_DATA);
                && buffer[..] == old(buffer[..at]) + f.payload
                && r == (match f.result case Ok(n) => Ok(Some(n)) case Err(e) => Err(e))
              else
                && buffer[..] == old(buffer[..])
                && r == (match ops.firmwareParams case Fails(e) => Err(FdOps(e)) case Returns(_) => Ok(None))
    {
      if classification == DOWNSTREAM_DEVICE {
        var n := GenerateFailureResponse(buffer, at, INVALID_DATA);
        return match n case Ok(len) => Ok(Some(len)) case Err(e) => Err(e);
      }
      if ops.firmwareParams.Fails? {
        return Err(FdOps(ops.firmwareParams.error));
      }
      return Ok(None);
    }

    method ActivatePendingComponentImageRsp(buffer: array<byte>, at: nat, ops: Platform)
      returns (r: Result<nat, HandlerError>)
      requires Valid() && at <= buffer.Length
      modifies this, internal, buffer
      ensures Did(ActivatePendingComponentImage(old(internal.Model()), old(buffer[at..]), ops), buffer, at, r)
    {
      hide After, Legal, FromLe16;
      ghost var was := buffer[..];
      Record(ActivatePendingComponentImage(internal.Model(), buffer[at..], ops).act);
      if internal.state != Idle {
        r := GenerateFailureResponse(buffer, at, INVALID_STATE_FOR_COMMAND);
        return;
      }
      if buffer.Length - at < 8 {
        r := GenerateFailureResponse(buffer, at, INVALID_LENGTH);
        return;
      }
      assert buffer[at..][3..] == buffer[at + 3..];
      var refused := ComponentCommandParams(buffer, at, FromLe16(buffer[at + 3..]), ops);
      if refused.Err? {
        return Err(refused.error);
      }
      if refused.value.Some? {
        return Ok(refused.value.value);
      }
      assert buffer[..] == was;
      if ops.pendingComponent.Fails? {
        return Err(FdOps(ops.pendingComponent.error));
      }
      var resp := ResponseHeader(InstanceId(buffer[at]), TYPE_FW_UPDATE, 0x1F) +
                  PendingBody(ops.pendingComponent.value);
      var n := EncodeMessage(resp, buffer, at);
      var sent;
      r, sent := FinishReply(n, buffer, at, was, resp);
    }

    method UpdateSecurityRevisionRsp(buffer: array<byte>, at: nat, ops: Platform) returns (r: Result<nat, HandlerError>)
      requires Valid() && at <= buffer.Length
      modifies this, internal, buffer
      ensures Did(UpdateSecurityRevision(old(internal.Model()), old(buffer[at..]), ops), buffer, at, r)
    {
      hide After, Legal, FromLe16;
      ghost var was := buffer[..];
      Record(UpdateSecurityRevision(internal.Model(), buffer[at..], ops).act);
      if internal.state != Idle {
        r := GenerateFailureResponse(buffer, at, INVALID_STATE_FOR_COMMAND);
        return;
      }
      if buffer.Length - at < 8 {
        r := GenerateFailureResponse(buffer, at, INVALID_LENGTH);
        return;
      }
      assert buffer[at..][3..] == buffer[at + 3..];
      var refused := ComponentCommandParams(buffer, at, FromLe16(buffer[at + 3..]), ops);
      if refused.Err? {
        return Err(refused.error);
      }
      if refused.value.Some? {
        return Ok(refused.value.value);
      }
      assert buffer[..] == was;
      if ops.securityRevision.Fails? {
        return Err(FdOps(ops.securityRevision.error));
      }
      var code := if ops.securityRevision.value then SUCCESS else UPDATE_SECURITY_REVISION_NOT_PERMITTED;
      var resp := ResponseHeader(InstanceId(buffer[at]), TYPE_FW_UPDATE, 0x22) + [code];
      var n := EncodeMessage(resp, buffer, at);
      var sent;
      r, sent := FinishReply(n, buffer, at, was, resp);
    }

    /** In Apply a cancel only works until the image has been applied successfully. */
    predicate AppliedSuccessfully()
      reads internal
    {
      internal.req.complete && internal.req.result == Some(RESULT_SUCCESS)
    }

    method CancelUpdateComponentRsp(buffer: array<byte>, at: nat, ops: Platform) returns (r: Result<nat, HandlerError>)
      requires Valid() && at <= buffer.Length
      modifies this, internal, buffer
      ensures Did(CancelUpdateComponent(old(internal.Model()), old(buffer[at..]), ops), buffer, at, r)
    {
      hide After, Legal, CancelUpdateComponent, Perform, Enabled;
      CancelUpdateComponentIsEnabled(internal.Model(), buffer[at..], ops);
      ghost var act;
      r, act := CancelUpdateComponentSteps(buffer, at, ops);
      Record(act);
    }

    method CancelUpdateComponentSteps(buffer: array<byte>, at: nat, ops: Platform)
      returns (r: Result<nat, HandlerError>, ghost act: Action)
      requires at <= buffer.Length
      modifies internal, buffer
      ensures Took(CancelUpdateComponent(old(internal.Model()), old(buffer[at..]), ops), buffer, at, r, act)
    {
      hide After, Legal, Failure, Respond;
      ghost var was := buffer[..];
      act := Skip;
      if !IsUpdateMode() {
        r := GenerateFailureResponse(buffer, at, NOT_IN_UPDATE_MODE);
        return;
      }
      var shouldCancel;
      if internal.state in {Download, Verify} {
        shouldCancel := true;
      } else if internal.state == Apply {
        shouldCancel := !AppliedSuccessfully();
      } else {
        r := GenerateFailureResponse(buffer, at, INVALID_STATE_FOR_COMMAND);
        return;
      }
      if shouldCancel {
        if ops.cancelUpdateComponent.Fails? {
          return Err(FdOps(ops.cancelUpdateComponent.error)), act;
        }
        act := CancelLost(None);
      }
      if buffer.Length - at < HEADER_LEN {
        r := GenerateFailureResponse(buffer, at, INVALID_LENGTH);
        return;
      }
      var resp := ResponseHeader(InstanceId(buffer[at]), TYPE_FW_UPDATE, 0x1C) +
                  [if shouldCancel then SUCCESS else ERROR];
      var n := EncodeMessage(resp, buffer, at);
      var sent;
      r, sent := FinishReply(n, buffer, at, was, resp);
      if sent && shouldCancel {
        internal.SetFdState(ReadyXfer);
        act := CancelComponent;
      }
    }

    method CancelUpdateRsp(buffer: array<byte>, at: nat, ops: Platform) returns (r: Result<nat, HandlerError>)
      requires Valid() && at <= buffer.Length
      modifies this, internal, buffer
      ensures Did(CancelUpdate(old(internal.Model()), old(buffer[at..]), ops), buffer, at, r)
    {
      hide After, Legal, CancelUpdate, Perform, Enabled;
      CancelUpdateIsEnabled(internal.Model(), buffer[at..], ops);
      ghost var act;
      r, act := CancelUpdateSteps(buffer, at, ops);
      Record(act);
    }

    method CancelUpdateSteps(buffer: array<byte>, at: nat, ops: Platform)
      returns (r: Result<nat, HandlerError>, ghost act: Action)
      requires at <= buffer.Length
      modifies internal, buffer
      ensures Took(CancelUpdate(old(internal.Model()), old(buffer[at..]), ops), buffer, at, r, act)
    {
      hide After, Legal, Failure, Respond, Le64;
      ghost var was := buffer[..];
      act := Skip;
      if !IsUpdateMode() {
        r := GenerateFailureResponse(buffer, at, NOT_IN_UPDATE_MODE);
        return;
      }
      SetFdT1Ts(ops.clock.check);
      act := CancelTouch(ops.clock.check);
      var shouldCancel;
      if internal.state in {Download, Verify} {
        shouldCancel := true;
      } else if internal.state == Apply {
        shouldCancel := !AppliedSuccessfully();
      } else {
        shouldCancel := false;
      }
      if shouldCancel {
        if ops.cancelUpdateComponent.Fails? {
          return Err(FdOps(ops.cancelUpdateComponent.error)), act;
        }
        act := CancelLost(Some(ops.clock.check));
      }
      if buffer.Length - at < HEADER_LEN {
        r := GenerateFailureResponse(buffer, at, INVALID_LENGTH);
        return;
      }
      if ops.nonFunctional.Fails? {
        return Err(FdOps(ops.nonFunctional.error)), act;
      }
      var (notFunctioning, bitmap) := ops.nonFunctional.value;
      var resp := ResponseHeader(InstanceId(buffer[at]), TYPE_FW_UPDATE, 0x1D) +
                  ([if shouldCancel then SUCCESS else ERROR, if notFunctioning then 1 else 0] + Le64(bitmap));
      var n := EncodeMessage(resp, buffer, at);
      var sent;
      r, sent := FinishReply(n, buffer, at, was, resp);
      if sent && shouldCancel {
        internal.SetFdIdle(Cancelled);
        act := CancelAll(ops.clock.check);
      }
    }

    method GetStatusRsp(buffer: array<byte>, at: nat, ops: Platform) returns (r: Result<nat, HandlerError>)
      requires Valid() && at <= buffer.Length
      modifies this, internal, buffer
      ensures Did(GetStatus(old(internal.Model()), old(buffer[at..]), ops), buffer, at, r)
    {
      hide After, Legal, Le32;
      ghost var was := buffer[..];
      Record(GetStatus(internal.Model(), buffer[at..], ops).act);
      if buffer.Length - at < HEADER_LEN {
        r := GenerateFailureResponse(buffer, at, INVALID_LENGTH);
        return;
      }
      var progress := StatusProgress(ops);
      var auxState, auxStatus := StatusOfRequest();
      var resp := ResponseHeader(InstanceId(buffer[at]), TYPE_FW_UPDATE, 0x1B) +
                  ([SUCCESS, StateCode(internal.state), StateCode(internal.prevState), auxState, auxStatus,
                    progress, ReasonCode(internal.reason)] + Le32(internal.updateFlags % 2));
      var n := EncodeMessage(resp, buffer, at);
      var sent;
      r, sent := FinishReply(n, buffer, at, was, resp);
    }

    /** The progress to report; 101 stands for not supported. */
    method StatusProgress(ops: Platform) returns (progress: byte)
      ensures progress == ProgressOf(internal.Model(), ops)
    {
      progress := 101;
      match internal.state {
        case Download =>
          if ops.downloadProgress.Returns? {
            progress := ops.downloadProgress.value;
          }
        case Verify =>
          if internal.initiatorModeState.VerifyPhase? {
            progress := internal.initiatorModeState.progress;
          }
        case Apply =>
          if internal.initiatorModeState.ApplyPhase? {
            progress := internal.initiatorModeState.progress;
          }
        case _ =>
      }
    }

    method StatusOfRequest() returns (auxState: byte, auxStatus: byte)
      ensures (auxState, auxStatus) == AuxState(internal.Model())
    {
      match internal.req.state {
        case Unused => return 3, 0;
        case Sent => return 0, 0;
        case Ready =>
          if internal.req.complete {
            return 1, 0;
          }
          return 0, 0;
        case Failed =>
          return 2, if internal.req.result.Some? then internal.req.result.value else 0x0a;
      }
    }

    // ---- Requests the device sends ----

    /** The state and the buffer after one of the three phase steps, T1 refresh aside, and the
        action its body collected. */
    twostate predicate Stepped(o: Outcome, buffer: array<byte>, at: nat,
                               new r: Result<nat, HandlerError>, new act: Action)
      requires at <= buffer.Length
      reads internal, buffer
    {
      && internal.Model() == Perform(old(internal.Model()), o.act).(t1Stamp := old(internal.Model()).t1Stamp)
      && buffer[..] == old(buffer[..at]) + o.payload && r == o.result && act == o.act
    }

    method ShouldSendFdRequest(ops: Platform) returns (should: bool)
      requires internal.req.state == Sent ==>
        internal.req.sentTime.Some? && !Overdue(internal.Model(), ops.clock.check)
      ensures should == MaySend(internal.Model(), ops.clock)
    {
      var now := ops.clock.gate;
      match internal.req.state {
        case Unused => return false;
        case Ready => return true;
        case Failed => return false;
        case Sent =>
          var sentTime := internal.req.sentTime.value;
          if now < sentTime {
            return false;
          }
          return now - sentTime >= internal.t2RetryTime;
      }
    }

    /** Requests go out as they are, or not at all. */
    method SendRequest(message: seq<byte>, buffer: array<byte>, at: nat) returns (r: Result<nat, HandlerError>)
      requires at <= buffer.Length
      modifies buffer
      ensures match Overwrite(old(buffer[at..]), message)
              case Ok(p) => r == Ok(|message|) && buffer[..] == old(buffer[..at]) + p
              case Err(e) => r == Err(Codec(e)) && buffer[..] == old(buffer[..])
    {
      ghost var was := buffer[..];
      var n := EncodeMessage(message, buffer, at);
      EncodedPayload(was, buffer[..], at, message, n);
      assert was[at..] == old(buffer[at..]);
      return match n case Ok(len) => Ok(len) case Err(e) => Err(Codec(e));
    }

    method FdProgressDownload(buffer: array<byte>, at: nat, ops: Platform)
      returns (r: Result<nat, HandlerError>, ghost act: Action)
      requires Inv(internal.Model()) && internal.state == Download && at <= buffer.Length
      requires !(internal.req.state == Sent && Overdue(internal.Model(), ops.clock.check))
      modifies internal, buffer
      ensures Stepped(ProgressDownload(old(internal.Model()), old(buffer[at..]), ops), buffer, at, r, act)
    {
      hide DownloadChunk, Le32, MaySend;
      var should := ShouldSendFdRequest(ops);
      if !should {
        return Err(FdInitiatorModeError), Skip;
      }
      var instanceId := internal.AllocNextInstanceId();
      act := DownloadUnsent(ops.clock);
      if internal.req.complete {
        var result := internal.req.result.value;
        r := SendRequest(RequestHeader(instanceId, TYPE_FW_UPDATE, CMD_TRANSFER_COMPLETE) + [result], buffer, at);
        if r.Ok? {
          internal.SetFdReq(Sent, true, Some(result), Some(instanceId), Some(CMD_TRANSFER_COMPLETE),
                            Some(ops.clock.sent));
          act := ReportTransfer(ops.clock);
        }
        return;
      }
      if ops.downloadOffsetAndLength.Fails? {
        return Err(FdOps(ops.downloadOffsetAndLength.error)), act;
      }
      var (requestedOffset, requestedLength) := ops.downloadOffsetAndLength.value;
      var chunk := internal.GetFdDownloadChunk(requestedOffset % U32_MODULUS, requestedLength % U32_MODULUS);
      ChunkIgnoresId(old(internal.Model()), requestedOffset % U32_MODULUS, requestedLength % U32_MODULUS);
      if chunk.None? {
        return Err(FdInitiatorModeError), act;
      }
      var (offset, length) := chunk.value;
      r := SendRequest(RequestHeader(instanceId, TYPE_FW_UPDATE, CMD_REQUEST_FW_DATA) + (Le32(offset) + Le32(length)),
                       buffer, at);
      if r.Ok? {
        internal.SetFdDownloadState(offset, length);
        internal.SetFdReq(Sent, false, None, Some(instanceId), Some(CMD_REQUEST_FW_DATA), Some(ops.clock.sent));
        act := Fetch(ops.clock, requestedOffset % U32_MODULUS, requestedLength % U32_MODULUS);
      }
    }

    /** Sends a completion report under the next id and records it as sent. */
    method ReportComplete(command: byte, result: byte, body: seq<byte>, buffer: array<byte>, at: nat, ops: Platform)
      returns (r: Result<nat, HandlerError>)
      requires at <= buffer.Length
      modifies internal, buffer
      ensures var s, id := old(internal.Model()), NextInstanceId(old(internal.req.instanceId));
        var message := RequestHeader(id, TYPE_FW_UPDATE, command) + body;
        match Overwrite(old(buffer[at..]), message)
        case Ok(p) =>
          && r == Ok(|message|) && buffer[..] == old(buffer[..at]) + p
          && internal.Model()
               == s.(req := Req(Sent, true, Some(result), Some(id), Some(command), Some(ops.clock.sent)))
        case Err(e) => r == Err(Codec(e)) && buffer[..] == old(buffer[..]) && internal.Model() == Allocate(s)
    {
      var instanceId := internal.AllocNextInstanceId();
      r := SendRequest(RequestHeader(instanceId, TYPE_FW_UPDATE, command) + body, buffer, at);
      if r.Ok? {
        internal.SetFdReq(Sent, true, Some(result), Some(instanceId), Some(command), Some(ops.clock.sent));
      }
    }

    method FdProgressVerify(buffer: array<byte>, at: nat, ops: Platform)
      returns (r: Result<nat, HandlerError>, ghost act: Action)
      requires Inv(internal.Model()) && internal.state == Verify && at <= buffer.Length
      requires !(internal.req.state == Sent && Overdue(internal.Model(), ops.clock.check))
      modifies internal, buffer
      ensures Stepped(ProgressWork(old(internal.Model()), old(buffer[at..]), ops, VerifyCall(ops)), buffer, at, r, act)
    {
      hide Inv, MaySend, Perform, SetProgress, NextInstanceId;
      ghost var s := internal.Model();
      SentHasTime(s);
      WorkPerforms(s, ops.clock, Verify, None);
      var should := ShouldSendFdRequest(ops);
      if !should {
        return Err(FdInitiatorModeError), Skip;
      }
      var component := internal.updateComp;
      ghost var call: Option<(byte, Percent)> := None;
      var result := RESULT_GENERIC_ERROR;
      if !internal.req.complete {
        if ops.verify.Fails? {
          return Err(FdOps(ops.verify.error)), WorkBroken(ops.clock, Verify, component);
        }
        var (code, percent) := ops.verify.value;
        call := Some((code, percent));
        WorkPerforms(s, ops.clock, Verify, call);
        result := code;
        internal.SetFdVerifyProgress(percent);
        if result == RESULT_SUCCESS && percent < 100 {
          return Ok(0), Work(ops.clock, Verify, component, call, Waiting);
        }
      }
      r := ReportComplete(CMD_VERIFY_COMPLETE, result, [result], buffer, at, ops);
      act := Work(ops.clock, Verify, component, call, if r.Ok? then OnTheWire else NotSent);
    }

    method FdProgressApply(buffer: array<byte>, at: nat, ops: Platform)
      returns (r: Result<nat, HandlerError>, ghost act: Action)
      requires Inv(internal.Model()) && internal.state == Apply && at <= buffer.Length
      requires !(internal.req.state == Sent && Overdue(internal.Model(), ops.clock.check))
      modifies internal, buffer
      ensures Stepped(ProgressWork(old(internal.Model()), old(buffer[at..]), ops, ApplyCall(ops)), buffer, at, r, act)
    {
      hide Inv, MaySend, Perform, SetProgress, NextInstanceId;
      ghost var s := internal.Model();
      SentHasTime(s);
      WorkPerforms(s, ops.clock, Apply, None);
      var should := ShouldSendFdRequest(ops);
      if !should {
        return Err(FdInitiatorModeError), Skip;
      }
      var component := internal.updateComp;
      ghost var call: Option<(byte, Percent)> := None;
      var result := RESULT_GENERIC_ERROR;
      if !internal.req.complete {
        if ops.apply.Fails? {
          return Err(FdOps(ops.apply.error)), WorkBroken(ops.clock, Apply, component);
        }
        var (code, percent) := ops.apply.value;
        call := Some((code, percent));
        WorkPerforms(s, ops.clock, Apply, call);
        result := code;
        internal.SetFdApplyProgress(percent);
        if result == RESULT_SUCCESS && percent < 100 {
          return Ok(0), Work(ops.clock, Apply, component, call, Waiting);
        }
      }
      r := ReportComplete(CMD_APPLY_COMPLETE, result, [result] + Le16(0), buffer, at, ops);
      act := Work(ops.clock, Apply, component, call, if r.Ok? then OnTheWire else NotSent);
    }

    /** `fd_progress` */
    method FdProgress(buffer: array<byte>, at: nat, ops: Platform) returns (r: Result<nat, HandlerError>)
      requires Valid() && at <= buffer.Length
      modifies this, internal, buffer
      ensures Inv(old(internal.Model())) && Did(Progress(old(internal.Model()), old(buffer[at..]), ops), buffer, at, r)
    {
      hide After, Legal, Progress, Perform, Enabled, Inv;
      ValidInv();
      ProgressIsEnabled(internal.Model(), buffer[at..], ops);
      ghost var act;
      r, act := FdProgressSteps(buffer, at, ops);
      Record(act);
    }

    /** The T1 check, the phase's own step and the refresh. */
    method FdProgressSteps(buffer: array<byte>, at: nat, ops: Platform)
      returns (r: Result<nat, HandlerError>, ghost act: Action)
      requires Inv(internal.Model()) && at <= buffer.Length
      modifies internal, buffer
      ensures Took(Progress(old(internal.Model()), old(buffer[at..]), ops), buffer, at, r, act)
    {
      hide After, Legal, ProgressDownload, ProgressWork, Inv;
      ghost var s := internal.Model();
      act := Skip;
      var state := internal.state;
      if state !in {Download, Verify, Apply} {
        return Err(FdInitiatorModeError), act;
      }
      if internal.req.state == Sent {
        var elapsed := if ops.clock.check >= internal.t1UpdateTs then ops.clock.check - internal.t1UpdateTs else 0;
        if elapsed > internal.t1Timeout {
          if ops.cancelUpdateComponent.Fails? {
            return Err(FdOps(ops.cancelUpdateComponent.error)), act;
          }
          internal.FdIdleTimeout();
          internal.SetFdReq(Unused, false, None, None, None, None);
          return Err(T1Timeout), TimedOut(ops.clock.check);
        }
      }
      RefreshedWhenWaiting(s, buffer[at..], ops);
      if state == Download {
        r, act := FdProgressDownload(buffer, at, ops);
      } else if state == Verify {
        r, act := FdProgressVerify(buffer, at, ops);
      } else {
        r, act := FdProgressApply(buffer, at, ops);
      }
      if r.Err? {
        return;
      }
      if state in {Verify, Apply} && internal.req.state != Sent {
        SetFdT1Ts(ops.clock.refresh);
      }
    }

    // ---- Responses the device receives ----

    /** `handle_response`; the payload is only read. */
    method HandleRsp(buffer: array<byte>, at: nat, ops: Platform) returns (r: Result<(), HandlerError>)
      requires Valid() && at <= buffer.Length
      modifies this, internal
      ensures Valid() && Inv(old(internal.Model()))
      ensures var (result, act) := HandleResponse(old(internal.Model()), buffer[at..], ops);
        && r == result && trace == old(trace) + [act] && internal.Model() == Perform(old(internal.Model()), act)
    {
      hide After, Legal, Inv, FirmwareData;
      ghost var s := internal.Model();
      ValidInv();
      ResponseIsEnabled(s, buffer[at..], ops);
      if buffer.Length - at < HEADER_LEN {
        Record(Skip);
        return Err(Codec(BufferTooShort));
      }
      var command, instanceId := buffer[at + 2], InstanceId(buffer[at]);
      var req := internal.req;
      if req.state != Sent || req.instanceId != Some(instanceId) || req.command != Some(command) {
        Record(Skip);
        return Err(FdInitiatorModeError);
      }
      TouchedAnswers(s, buffer[at..], ops);
      SetFdT1Ts(ops.clock.check);
      ghost var answer;
      if command == CMD_REQUEST_FW_DATA {
        r, answer := ProcessRequestFwDataRsp(buffer, at, ops);
      } else if command == CMD_TRANSFER_COMPLETE {
        r, answer := ProcessTransferCompleteRsp();
      } else if command == CMD_VERIFY_COMPLETE {
        r, answer := ProcessVerifyCompleteRsp();
      } else if command == CMD_APPLY_COMPLETE {
        r, answer := ProcessApplyCompleteRsp();
      } else {
        r, answer := Err(FdInitiatorModeError), NoEffect;
      }
      Record(Answered(ops.clock.check, instanceId, command, answer));
    }

    method ProcessRequestFwDataRsp(buffer: array<byte>, at: nat, ops: Platform)
      returns (r: Result<(), HandlerError>, ghost answer: Answer)
      requires Inv(internal.Model()) && at <= buffer.Length
      modifies internal
      ensures (r, answer) == FirmwareData(old(internal.Model()), buffer[at..], ops)
      ensures internal.Model() == Conclude(old(internal.Model()), answer)
    {
      if internal.state != Download {
        return Err(FdInitiatorModeError), NoEffect;
      }
      if internal.req.complete {
        return Err(FdInitiatorModeError), NoEffect;
      }
      if buffer.Length - at < 4 {
        return Err(Codec(BufferTooShort)), NoEffect;
      }
      var code := buffer[at + 3];
      if code != SUCCESS {
        if code == RETRY_REQUEST_FW_DATA {
          return Ok(()), NoEffect;
        }
        internal.SetFdReq(Ready, true, Some(RESULT_FD_ABORTED), None, None, None);
        return Ok(()), AbortedByUa;
      }
      var offset, length := internal.initiatorModeState.offset, internal.initiatorModeState.length;
      if buffer.Length - at - 4 < length as int {
        return Err(Codec(BufferTooShort)), NoEffect;
      }
      var fwData := buffer[at + 4..at + 4 + length as int];
      assert fwData == buffer[at..][4..4 + length as int];
      var component := internal.updateComp;
      answer := Data(component, offset, fwData, ops.downloadFwData, ops.isDownloadComplete);
      if ops.downloadFwData.Fails? {
        return Err(FdOps(ops.downloadFwData.error)), answer;
      }
      var result := ops.downloadFwData.value;
      if result == RESULT_SUCCESS {
        if ops.isDownloadComplete {
          internal.SetFdReq(Ready, true, Some(RESULT_SUCCESS), None, None, None);
        } else {
          internal.SetFdReq(Ready, false, None, None, None, None);
        }
      } else {
        internal.SetFdReq(Ready, true, Some(result), None, None, None);
      }
      return Ok(()), answer;
    }

    method ProcessTransferCompleteRsp() returns (r: Result<(), HandlerError>, ghost answer: Answer)
      modifies internal
      ensures (r, answer) == CompleteAnswer(old(internal.Model()), Download)
      ensures internal.Model() == Conclude(old(internal.Model()), answer)
    {
      if internal.state != Download {
        return Err(FdInitiatorModeError), NoEffect;
      }
      var req := internal.req;
      if req.state != Sent || !req.complete {
        return Err(FdInitiatorModeError), NoEffect;
      }
      if req.result == Some(RESULT_SUCCESS) {
        internal.SetInitiatorMode(VerifyPhase(0));
        internal.SetFdReq(Ready, false, None, None, None, None);
        internal.SetFdState(Verify);
      } else {
        internal.SetFdReq(Failed, true, req.result, None, None, None);
      }
      return Ok(()), Acknowledged;
    }

    method ProcessVerifyCompleteRsp() returns (r: Result<(), HandlerError>, ghost answer: Answer)
      modifies internal
      ensures (r, answer) == CompleteAnswer(old(internal.Model()), Verify)
      ensures internal.Model() == Conclude(old(internal.Model()), answer)
    {
      if internal.state != Verify {
        return Err(FdInitiatorModeError), NoEffect;
      }
      var req := internal.req;
      if req.state != Sent || !req.complete {
        return Err(FdInitiatorModeError), NoEffect;
      }
      if req.result == Some(RESULT_SUCCESS) {
        internal.SetInitiatorMode(ApplyPhase(0));
        internal.SetFdReq(Ready, false, None, None, None, None);
        internal.SetFdState(Apply);
      } else {
        internal.SetFdReq(Failed, true, req.result, None, None, None);
      }
      return Ok(()), Acknowledged;
    }

    method ProcessApplyCompleteRsp() returns (r: Result<(), HandlerError>, ghost answer: Answer)
      modifies internal
      ensures (r, answer) == CompleteAnswer(old(internal.Model()), Apply)
      ensures internal.Model() == Conclude(old(internal.Model()), answer)
    {
      if internal.state != Apply {
        return Err(FdInitiatorModeError), NoEffect;
      }
      var req := internal.req;
      if req.state != Sent || !req.complete {
        return Err(FdInitiatorModeError), NoEffect;
      }
      if req.result == Some(RESULT_SUCCESS) {
        internal.SetFdReq(Unused, false, None, None, None, None);
        internal.SetFdState(ReadyXfer);
      } else {
        internal.SetFdReq(Failed, true, req.result, None, None, None);
      }
      return Ok(()), Acknowledged;
    }
  }
}
