// The state of a firmware device and its update protocol as a labelled transition
// system: which actions a state allows, and what each does to the state. The handlers
// of FdHandlers turn bytes and platform answers into these actions.
module FdState {
  import opened Bytes
  import opened Base
  import opened FirmwareParameters
  import opened FirmwareStrings

  datatype DeviceState = Idle | LearnComponents | ReadyXfer | Download | Verify | Apply | Activate

  function StateCode(s: DeviceState): byte {
    match s
    case Idle => 0 case LearnComponents => 1 case ReadyXfer => 2 case Download => 3
    case Verify => 4 case Apply => 5 case Activate => 6
  }

  /** Why the device last went idle. No reason means it has not left its initial state. */
  datatype Reason =
    | Activated
    | Cancelled
    | LearnComponentTimeout
    | ReadyXferTimeout
    | DownloadTimeout
    | VerifyTimeout
    | ApplyTimeout

  function ReasonCode(r: Option<Reason>): byte {
    match r
    case None => 0
    case Some(Activated) => 1
    case Some(Cancelled) => 2
    case Some(LearnComponentTimeout) => 3
    case Some(ReadyXferTimeout) => 4
    case Some(DownloadTimeout) => 5
    case Some(VerifyTimeout) => 6
    case Some(ApplyTimeout) => 7
  }

  datatype ReqState = Unused | Ready | Sent | Failed

  datatype Req = Req(
    state: ReqState,
    complete: bool,
    result: Option<byte>,
    instanceId: Option<byte>,
    command: Option<byte>,
    sentTime: Option<nat>)

  /** `InitiatorModeState` */
  datatype Phase =
    | DownloadPhase(offset: u32, length: u32)
    | VerifyPhase(progress: byte)
    | ApplyPhase(progress: byte)

  datatype Component = Component(
    classification: u16,
    identifier: u16,
    classificationIndex: byte,
    stamp: u32,
    version: FirmwareString,
    imageSize: Option<u32>,
    optionFlags: Option<u32>)

  const NO_COMPONENT := Component(0, 0, 0, 0, FirmwareString(0, 0, Zeros(VER_STR_MAX_LEN)), None, None)

  datatype Fd = Fd(
    state: DeviceState,
    prev: DeviceState,
    reason: Option<Reason>,
    comp: Component,
    flags: u32,
    maxXfer: u32,
    req: Req,
    phase: Phase,
    t1Stamp: nat,
    t1Timeout: nat,
    t2Retry: nat)

  function FreshReq(state: ReqState): Req { Req(state, false, None, None, None, None) }

  function Initial(maxXfer: u32, t1Timeout: nat, t2Retry: nat): Fd {
    Fd(Idle, Idle, None, NO_COMPONENT, 0, maxXfer, FreshReq(Unused), DownloadPhase(0, 0), 0, t1Timeout, t2Retry)
  }

  const INSTANCE_ID_COUNT := 32
  const MAX_PADDING_SIZE := 32

  const CMD_REQUEST_FW_DATA: byte := 0x15
  const CMD_TRANSFER_COMPLETE: byte := 0x16
  const CMD_VERIFY_COMPLETE: byte := 0x17
  const CMD_APPLY_COMPLETE: byte := 0x18

  // TransferSuccess, VerifySuccess and ApplySuccess share a code, as do the generic errors.
  const RESULT_SUCCESS: byte := 0x00
  const RESULT_GENERIC_ERROR: byte := 0x0a
  const RESULT_FD_ABORTED: byte := 0x03

  // The result codes a platform callback can return. VendorDefined verify and apply
  // results go out as 0x0b; a VendorDefined transfer result is not representable.
  type TransferResult = b: byte | b <= 3 || 9 <= b <= 16
  type VerifyResult = b: byte | b <= 4 || 9 <= b <= 11
  type ApplyResult = b: byte | b <= 2 || 9 <= b <= 11
  type Percent = b: byte | b <= 101

  // ---- Setters of the device state ----

  function NextInstanceId(id: Option<byte>): byte {
    match id
    case None => 1
    case Some(i) => (i as int + 1) % INSTANCE_ID_COUNT
  }

  function Allocate(s: Fd): Fd { s.(req := s.req.(instanceId := Some(NextInstanceId(s.req.instanceId)))) }

  function SetState(s: Fd, state: DeviceState): Fd {
    if s.state != state then s.(prev := s.state, state := state) else s
  }

  function SetIdle(s: Fd, reason: Reason): Fd {
    if s.state != Idle then s.(prev := s.state, state := Idle, reason := Some(reason)) else s
  }

  function IdleTimeout(s: Fd): Fd {
    match s.state
    case Idle => s
    case LearnComponents => SetIdle(s, LearnComponentTimeout)
    case ReadyXfer => SetIdle(s, ReadyXferTimeout)
    case Download => SetIdle(s, DownloadTimeout)
    case Verify => SetIdle(s, VerifyTimeout)
    case Apply => SetIdle(s, ApplyTimeout)
    case Activate => SetIdle(s, Activated)
  }

  function SetDownloadChunk(s: Fd, offset: u32, length: u32): Fd {
    if s.phase.DownloadPhase? then s.(phase := DownloadPhase(offset, length)) else s
  }

  /** Progress is kept only in the phase record of the phase it belongs to. */
  function SetProgress(s: Fd, during: DeviceState, progress: byte): Fd {
    if during == Verify && s.phase.VerifyPhase? then s.(phase := VerifyPhase(progress))
    else if during == Apply && s.phase.ApplyPhase? then s.(phase := ApplyPhase(progress))
    else s
  }

  /** `get_fd_download_chunk`, with the u32 sums wrapping as they do in a release build. */
  function DownloadChunk(s: Fd, offset: u32, length: u32): Option<(u32, u32)> {
    if s.state != Download then None
    else
      var imageSize: int := if s.comp.imageSize.Some? then s.comp.imageSize.value else 0;
      if offset as int > imageSize
         || (offset as int + length as int) % U32_MODULUS > (imageSize + MAX_PADDING_SIZE) % U32_MODULUS
      then None
      else Some((offset, if length < s.maxXfer then length else s.maxXfer))
  }

  // ---- Actions ----

  /** The clock readings one `fd_progress` call may take, in the order it takes them. */
  datatype Clock = Clock(check: nat, gate: nat, sent: nat, refresh: nat)

  datatype Outgoing = Waiting | NotSent | OnTheWire

  /** What a platform callback came back with. */
  datatype Called<+T> = Returns(value: T) | Fails(error: FdOpsError)

  datatype Answer =
    | NoEffect
    | Data(comp: Component, offset: u32, data: seq<byte>, outcome: Called<TransferResult>, finished: bool)
    | AbortedByUa
    | Acknowledged

  /** One observable step: what a call read from the platform, sent, and changed. In CancelLost
      the platform has cancelled, but a later step failed and the device stays where it is. In
      WorkBroken the platform's verify or apply callback was called and reported an error. */
  datatype Action =
    | Skip
    | Touch(now: nat)
    | CancelTouch(now: nat)
    | Negotiate(now: nat, xfer: u32)
    | LastPassed(now: nat)
    | Store(now: nat, comp: Component, flags: u32, accepted: bool)
    | ActivateAll
    | CancelComponent
    | CancelAll(now: nat)
    | CancelLost(touched: Option<nat>)
    | TimedOut(now: nat)
    | DownloadUnsent(at: Clock)
    | Fetch(at: Clock, wantedOffset: u32, wantedLength: u32)
    | ReportTransfer(at: Clock)
    | Work(at: Clock, during: DeviceState, worked: Component, call: Option<(byte, Percent)>, out: Outgoing)
    | WorkBroken(at: Clock, during: DeviceState, worked: Component)
    | Answered(now: nat, instanceId: byte, command: byte, answer: Answer)

  predicate InPhase(s: Fd) { s.state in {Download, Verify, Apply} }

  predicate Cancellable(s: Fd) {
    InPhase(s) && !(s.state == Apply && s.req.complete && s.req.result == Some(RESULT_SUCCESS))
  }

  predicate Overdue(s: Fd, now: nat) { now - s.t1Stamp > s.t1Timeout }

  /** `should_send_fd_request` after the T1 check of the same call. */
  predicate MaySend(s: Fd, at: Clock) {
    match s.req.state
    case Unused => false
    case Failed => false
    case Ready => true
    case Sent => s.req.sentTime.Some? && !Overdue(s, at.check) && at.gate - s.req.sentTime.value >= s.t2Retry
  }

  function CompleteCommand(state: DeviceState): byte {
    match state
    case Verify => CMD_VERIFY_COMPLETE
    case Apply => CMD_APPLY_COMPLETE
    case _ => CMD_TRANSFER_COMPLETE
  }

  predicate StillWorking(call: Option<(byte, Percent)>) {
    call.Some? && call.value.0 == RESULT_SUCCESS && call.value.1 < 100
  }

  /** A request went out. */
  predicate OnWire(a: Action) { a.Fetch? || a.ReportTransfer? || (a.Work? && a.out == OnTheWire) }

  predicate IsResultOf(state: DeviceState, code: byte) {
    match state
    case Download => code <= 3 || 9 <= code <= 16
    case Verify => code <= 4 || 9 <= code <= 11
    case Apply => code <= 2 || 9 <= code <= 11
    case _ => false
  }

  predicate Enabled(s: Fd, a: Action) {
    match a
    case Skip => true
    case Touch(_) => s.state in {Idle, LearnComponents, ReadyXfer}
    case CancelTouch(_) => s.state != Idle
    case Negotiate(_, _) => s.state == Idle
    case LastPassed(_) => s.state == LearnComponents
    case Store(_, _, _, _) => s.state == ReadyXfer
    case ActivateAll => s.state == ReadyXfer
    case CancelComponent => Cancellable(s)
    case CancelAll(_) => Cancellable(s)
    case CancelLost(_) => Cancellable(s)
    case TimedOut(now) => InPhase(s) && s.req.state == Sent && Overdue(s, now)
    case DownloadUnsent(at) => s.state == Download && MaySend(s, at)
    case Fetch(at, offset, length) =>
      s.state == Download && MaySend(s, at) && !s.req.complete && DownloadChunk(s, offset, length).Some?
    case ReportTransfer(at) => s.state == Download && MaySend(s, at) && s.req.complete && s.req.result.Some?
    case Work(at, during, worked, call, out) =>
      && s.state == during && during in {Verify, Apply}
      && MaySend(s, at)
      && worked == s.comp
      && (call.None? <==> s.req.complete)
      && (call.Some? ==> IsResultOf(during, call.value.0))
      && (out == Waiting <==> StillWorking(call))
    case WorkBroken(at, during, worked) =>
      s.state == during && during in {Verify, Apply} && MaySend(s, at) && !s.req.complete && worked == s.comp
    case Answered(_, instanceId, command, answer) =>
      && s.req.state == Sent && s.req.instanceId == Some(instanceId) && s.req.command == Some(command)
      && match answer
         case NoEffect => true
         case Data(comp, offset, data, _, _) =>
           && s.state == Download && !s.req.complete && comp == s.comp
           && s.phase.DownloadPhase? && s.phase.offset == offset && s.phase.length == |data|
         case AbortedByUa => s.state == Download && !s.req.complete
         case Acknowledged => InPhase(s) && s.req.complete
  }

  /** The effect of an accepted response, after T1 has been refreshed. */
  function Conclude(s: Fd, answer: Answer): Fd {
    match answer
    case NoEffect => s
    case Data(_, _, _, Fails(_), _) => s
    case Data(_, _, _, Returns(outcome), finished) =>
      if outcome == RESULT_SUCCESS && !finished then s.(req := FreshReq(Ready))
      else s.(req := Req(Ready, true, Some(outcome), None, None, None))
    case AbortedByUa => s.(req := Req(Ready, true, Some(RESULT_FD_ABORTED), None, None, None))
    case Acknowledged =>
      if s.req.result != Some(RESULT_SUCCESS) then s.(req := Req(Failed, true, s.req.result, None, None, None))
      else
        match s.state
        case Download => SetState(s.(phase := VerifyPhase(0), req := FreshReq(Ready)), Verify)
        case Verify => SetState(s.(phase := ApplyPhase(0), req := FreshReq(Ready)), Apply)
        case Apply => SetState(s.(req := FreshReq(Unused)), ReadyXfer)
        case _ => s
  }

  function Perform(s: Fd, a: Action): Fd {
    match a
    case Skip => s
    case Touch(now) => s.(t1Stamp := now)
    case CancelTouch(now) => s.(t1Stamp := now)
    case Negotiate(now, xfer) => SetState(s.(t1Stamp := now, maxXfer := xfer), LearnComponents)
    case LastPassed(now) => SetState(s.(t1Stamp := now), ReadyXfer)
    case Store(now, comp, flags, accepted) =>
      var t := s.(t1Stamp := now, comp := comp, flags := flags);
      if accepted then SetState(t.(phase := DownloadPhase(0, 0), req := FreshReq(Ready)), Download) else t
    case ActivateAll => SetIdle(SetState(s, Activate), Activated)
    case CancelComponent => SetState(s, ReadyXfer)
    case CancelAll(now) => SetIdle(s.(t1Stamp := now), Cancelled)
    case CancelLost(touched) => if touched.Some? then s.(t1Stamp := touched.value) else s
    case TimedOut(_) => IdleTimeout(s).(req := FreshReq(Unused))
    case DownloadUnsent(_) => Allocate(s)
    case Fetch(at, offset, length) =>
      (match DownloadChunk(s, offset, length)
       case None => Allocate(s)
       case Some((o, l)) =>
         SetDownloadChunk(s, o, l).(req := Req(Sent, false, None, Some(NextInstanceId(s.req.instanceId)),
                                               Some(CMD_REQUEST_FW_DATA), Some(at.sent))))
    case ReportTransfer(at) =>
      s.(req := Req(Sent, true, s.req.result, Some(NextInstanceId(s.req.instanceId)),
                    Some(CMD_TRANSFER_COMPLETE), Some(at.sent)))
    case Work(at, during, _, call, out) =>
      var t := if call.Some? then SetProgress(s, during, call.value.1) else s;
      (match out
       case Waiting => t.(t1Stamp := at.refresh)
       case NotSent => Allocate(t)
       case OnTheWire =>
         t.(req := Req(Sent, true, Some(if call.Some? then call.value.0 else RESULT_GENERIC_ERROR),
                       Some(NextInstanceId(s.req.instanceId)), Some(CompleteCommand(during)), Some(at.sent))))
    case WorkBroken(_, _, _) => s
    case Answered(now, _, _, answer) => Conclude(s.(t1Stamp := now), answer)
  }

  // ---- Traces ----

  /** The state after a finite history of actions. */
  function After(s: Fd, acts: seq<Action>): Fd {
    if acts == [] then s else Perform(After(s, acts[..|acts| - 1]), acts[|acts| - 1])
  }

  /** Every action was allowed where it was taken. */
  ghost predicate Legal(s: Fd, acts: seq<Action>) {
    acts != [] ==>
      Legal(s, acts[..|acts| - 1]) && Enabled(After(s, acts[..|acts| - 1]), acts[|acts| - 1])
  }

  ghost predicate IsInitial(s: Fd) { s == Initial(s.maxXfer, s.t1Timeout, s.t2Retry) }

  lemma StartOfTrace(s: Fd)
    ensures Legal(s, []) && After(s, []) == s
  {
  }

  lemma ExtendTrace(s: Fd, acts: seq<Action>, a: Action)
    requires Legal(s, acts) && Enabled(After(s, acts), a)
    ensures Legal(s, acts + [a]) && After(s, acts + [a]) == Perform(After(s, acts), a)
  {
  }

  lemma LastStep(s: Fd, acts: seq<Action>)
    requires Legal(s, acts) && acts != []
    ensures var before, last := acts[..|acts| - 1], acts[|acts| - 1];
      && Legal(s, before) && Enabled(After(s, before), last) && After(s, acts) == Perform(After(s, before), last)
  {
  }

  lemma {:induction false} LegalConcat(s: Fd, a: seq<Action>, b: seq<Action>)
    requires Legal(s, a) && Legal(After(s, a), b)
    ensures Legal(s, a + b) && After(s, a + b) == After(After(s, a), b)
    decreases |b|
  {
    hide After, Legal, Enabled, Perform;
    if b == [] {
      assert a + b == a;
      StartOfTrace(After(s, a));
    } else {
      var front := b[..|b| - 1];
      LastStep(After(s, a), b);
      LegalConcat(s, a, front);
      ExtendTrace(s, a + front, b[|b| - 1]);
      assert a + b == (a + front) + [b[|b| - 1]];
    }
  }

  lemma {:induction false} LegalPrefix(s: Fd, acts: seq<Action>, n: nat)
    requires Legal(s, acts) && n <= |acts|
    ensures Legal(s, acts[..n])
  {
    if n < |acts| {
      LegalPrefix(s, acts[..|acts| - 1], n);
      assert acts[..|acts| - 1][..n] == acts[..n];
    } else {
      assert acts[..n] == acts;
    }
  }

  /** The step at position `n` of a legal trace. */
  lemma StepAt(s: Fd, acts: seq<Action>, n: nat)
    requires Legal(s, acts) && n < |acts|
    ensures Legal(s, acts[..n]) && Enabled(After(s, acts[..n]), acts[n])
    ensures After(s, acts[..n + 1]) == Perform(After(s, acts[..n]), acts[n])
  {
    LegalPrefix(s, acts, n);
    LegalPrefix(s, acts, n + 1);
    assert acts[..n + 1][..n] == acts[..n];
  }
}
