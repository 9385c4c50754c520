// The mutable record behind the firmware device. Each setter is the state change of FdState
// with the same name.
module FdInternals {
  import opened Bytes
  import opened FdState

  const FD_MAX_XFER_SIZE: u32 := 512
  const DEFAULT_FD_T1_TIMEOUT: nat := 120000
  const DEFAULT_FD_T2_RETRY_TIME: nat := 5000

  class FdInternal {
    var state: DeviceState
    var prevState: DeviceState
    var reason: Option<Reason>
    var updateComp: Component
    var updateFlags: u32
    var maxXferSize: u32
    var req: Req
    var initiatorModeState: Phase
    var t1UpdateTs: nat
    var t1Timeout: nat
    var t2RetryTime: nat

    /** The abstract value of the record. */
    ghost function Model(): Fd
      reads this
    {
      Fd(state, prevState, reason, updateComp, updateFlags, maxXferSize, req, initiatorModeState,
         t1UpdateTs, t1Timeout, t2RetryTime)
    }

    constructor (maxXferSize: u32, t1Timeout: nat, t2RetryTime: nat)
      ensures Model() == Initial(maxXferSize, t1Timeout, t2RetryTime)
    {
      state, prevState, reason := Idle, Idle, None;
      updateComp, updateFlags := NO_COMPONENT, 0;
      this.maxXferSize := maxXferSize;
      req := FreshReq(Unused);
      initiatorModeState := DownloadPhase(0, 0);
      t1UpdateTs := 0;
      this.t1Timeout, this.t2RetryTime := t1Timeout, t2RetryTime;
    }

    method SetFdState(newState: DeviceState)
      modifies this
      ensures Model() == SetState(old(Model()), newState)
    {
      if state != newState {
        prevState := state;
        state := newState;
      }
    }

    method SetFdIdle(reasonCode: Reason)
      modifies this
      ensures Model() == SetIdle(old(Model()), reasonCode)
    {
      if state != Idle {
        prevState := state;
        state := Idle;
        reason := Some(reasonCode);
      }
    }

    method FdIdleTimeout()
      modifies this
      ensures Model() == IdleTimeout(old(Model()))
    {
      var code;
      match state {
        case Idle => return;
        case LearnComponents => code := LearnComponentTimeout;
        case ReadyXfer => code := ReadyXferTimeout;
        case Download => code := DownloadTimeout;
        case Verify => code := VerifyTimeout;
        case Apply => code := ApplyTimeout;
        case Activate => code := Activated;
      }
      SetFdIdle(code);
    }

    /** The size is cast to 32 bits. */
    method SetXferSize(transferSize: nat)
      modifies this
      ensures Model() == old(Model()).(maxXfer := transferSize % U32_MODULUS)
    {
      maxXferSize := transferSize % U32_MODULUS;
    }

    method SetComponent(comp: Component)
      modifies this
      ensures Model() == old(Model()).(comp := comp)
    {
      updateComp := comp;
    }

    method SetUpdateFlags(flags: u32)
      modifies this
      ensures Model() == old(Model()).(flags := flags)
    {
      updateFlags := flags;
    }

    method SetFdReq(reqState: ReqState, complete: bool, result: Option<byte>, instanceId: Option<byte>,
                    command: Option<byte>, sentTime: Option<nat>)
      modifies this
      ensures Model() == old(Model()).(req := Req(reqState, complete, result, instanceId, command, sentTime))
    {
      req := Req(reqState, complete, result, instanceId, command, sentTime);
    }

    method AllocNextInstanceId() returns (id: byte)
      modifies this
      ensures id == NextInstanceId(old(req.instanceId))
      ensures Model() == Allocate(old(Model()))
    {
      id := if req.instanceId.None? then 1 else (req.instanceId.value as int + 1) % INSTANCE_ID_COUNT;
      req := req.(instanceId := Some(id));
    }

    method SetFdDownloadState(offset: u32, length: u32)
      modifies this
      ensures Model() == SetDownloadChunk(old(Model()), offset, length)
    {
      if initiatorModeState.DownloadPhase? {
        initiatorModeState := DownloadPhase(offset, length);
      }
    }

    method SetInitiatorMode(mode: Phase)
      modifies this
      ensures Model() == old(Model()).(phase := mode)
    {
      initiatorModeState := mode;
    }

    method SetFdVerifyProgress(progress: byte)
      modifies this
      ensures Model() == SetProgress(old(Model()), Verify, progress)
    {
      if initiatorModeState.VerifyPhase? {
        initiatorModeState := VerifyPhase(progress);
      }
    }

    method SetFdApplyProgress(progress: byte)
      modifies this
      ensures Model() == SetProgress(old(Model()), Apply, progress)
    {
      if initiatorModeState.ApplyPhase? {
        initiatorModeState := ApplyPhase(progress);
      }
    }

    method SetFdT1UpdateTs(timestamp: nat)
      modifies this
      ensures Model() == old(Model()).(t1Stamp := timestamp)
    {
      t1UpdateTs := timestamp;
    }

    method GetFdDownloadChunk(requestedOffset: u32, requestedLength: u32) returns (chunk: Option<(u32, u32)>)
      ensures chunk == DownloadChunk(Model(), requestedOffset, requestedLength)
    {
      if state != Download {
        return None;
      }
      var imageSize: u32 := if updateComp.imageSize.Some? then updateComp.imageSize.value else 0;
      if requestedOffset > imageSize {
        return None;
      }
      var end: u32 := (requestedOffset as int + requestedLength as int) % U32_MODULUS;
      var limit: u32 := (imageSize as int + MAX_PADDING_SIZE) % U32_MODULUS;
      if end > limit {
        return None;
      }
      return Some((requestedOffset, if requestedLength < maxXferSize then requestedLength else maxXferSize));
    }
  }
}
