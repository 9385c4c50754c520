// Laws of the handlers: they only take actions the protocol allows, a refusal changes
// nothing, and every reply answers the request it was made for.
module FdHandlerLaws {
  import opened Bytes
  import opened Base
  import opened UpdateMessages
  import opened FdState
  import opened FdInvariant
  import opened FdHandlers
  import DeviceIds

  // ---- Handlers refine the protocol ----

  lemma CommandIsEnabled(opcode: byte, s: Fd, payload: seq<byte>, ops: Platform)
    ensures Enabled(s, Command(opcode, s, payload, ops).act)
  {
  }

  lemma ProgressIsEnabled(s: Fd, payload: seq<byte>, ops: Platform)
    requires Inv(s)
    ensures Enabled(s, Progress(s, payload, ops).act)
  {
  }

  lemma ResponseIsEnabled(s: Fd, payload: seq<byte>, ops: Platform)
    requires Inv(s)
    ensures Enabled(s, HandleResponse(s, payload, ops).1)
  {
  }

  // ---- Refusals ----

  /** A reply that grants the request: Success, or ActivationNotRequired from ActivateFirmware. */
  predicate Grants(opcode: byte, o: Outcome) {
    && o.result.Ok? && |o.payload| >= FAILURE_RESP_LEN
    && (o.payload[3] == SUCCESS || (opcode == 0x1A && o.payload[3] == ACTIVATION_NOT_REQUIRED))
  }

  predicate SameProtocolState(s: Fd, t: Fd) {
    s.state == t.state && s.prev == t.prev && s.reason == t.reason && s.req == t.req && s.phase == t.phase
  }

  /** Actions that touch timestamps, the transfer size and the stored component at most. */
  predicate Quiet(a: Action) {
    || a.Skip? || a.Touch? || a.CancelTouch? || a.CancelLost?
    || (a.Store? && !a.accepted)
  }

  lemma QuietChangesNothing(s: Fd, a: Action)
    requires Quiet(a)
    ensures SameProtocolState(s, Perform(s, a))
  {
  }

  // The commands in three groups: those that set an update up, those that end it, and those
  // that leave it alone.

  const SETUP := {0x10, 0x13, 0x14}
  const ENDING := {0x1A, 0x1C, 0x1D}

  lemma SetupRefusalIsQuiet(opcode: byte, s: Fd, payload: seq<byte>, ops: Platform)
    requires opcode as int in SETUP && !Grants(opcode, Command(opcode, s, payload, ops))
    ensures Quiet(Command(opcode, s, payload, ops).act)
  {
  }

  lemma EndingRefusalIsQuiet(opcode: byte, s: Fd, payload: seq<byte>, ops: Platform)
    requires opcode as int in ENDING && !Grants(opcode, Command(opcode, s, payload, ops))
    ensures Quiet(Command(opcode, s, payload, ops).act)
  {
  }

  lemma OthersAreQuiet(opcode: byte, s: Fd, payload: seq<byte>, ops: Platform)
    requires opcode as int !in SETUP + ENDING
    ensures Command(opcode, s, payload, ops).act == Skip
  {
  }

  /** An error, or any reply that does not grant the request, leaves the device state, its
      history, the request record and the phase record as they were. */
  lemma RefusalChangesNothing(opcode: byte, s: Fd, payload: seq<byte>, ops: Platform)
    requires !Grants(opcode, Command(opcode, s, payload, ops))
    ensures SameProtocolState(s, Perform(s, Command(opcode, s, payload, ops).act))
  {
    hide Command, Grants, Perform;
    if opcode as int in SETUP {
      SetupRefusalIsQuiet(opcode, s, payload, ops);
    } else if opcode as int in ENDING {
      EndingRefusalIsQuiet(opcode, s, payload, ops);
    } else {
      OthersAreQuiet(opcode, s, payload, ops);
    }
    QuietChangesNothing(s, Command(opcode, s, payload, ops).act);
  }

  /** ActivatePendingComponentImage and UpdateSecurityRevision leave no trace, granted or not. */
  lemma IdleCommandsChangeNothing(opcode: byte, s: Fd, payload: seq<byte>, ops: Platform)
    requires opcode in {0x01, 0x02, 0x1B, 0x1F, 0x22}
    ensures Perform(s, Command(opcode, s, payload, ops).act) == s
  {
  }

  // ---- Replies ----

  ghost predicate Answers(payload: seq<byte>, o: Outcome) { Echoes(payload, Handled(o.payload, o.result)) }

  lemma FailAnswers(payload: seq<byte>)
    ensures forall code, act {:trigger Fail(payload, code, act)} :: Answers(payload, Fail(payload, code, act))
  {
    hide Failure, Echoes;
    forall code, act {:trigger Fail(payload, code, act)} ensures Answers(payload, Fail(payload, code, act)) {
      FailureEchoes(payload, code);
    }
  }

  lemma ReplyAnswers(payload: seq<byte>, command: byte)
    requires |payload| >= HEADER_LEN && PldmType(payload[1]) == TYPE_FW_UPDATE && payload[2] == command
    ensures forall body, done, unsent {:trigger Reply(payload, command, body, done, unsent)} ::
      body != [] ==> Answers(payload, Reply(payload, command, body, done, unsent))
  {
  }

  lemma BrokenAnswers(payload: seq<byte>)
    ensures forall e, act {:trigger Broken(payload, e, act)} :: Answers(payload, Broken(payload, e, act))
  {
  }

  lemma DeviceIdsAnswers(payload: seq<byte>, ops: Platform)
    requires |payload| >= HEADER_LEN && PldmType(payload[1]) == TYPE_FW_UPDATE && payload[2] == 0x01
    ensures Answers(payload, QueryDeviceIdentifiers(payload, ops))
  {
    hide Respond, Echoes;
    if ops.deviceIdentifiers.Returns? {
      var (ds, count) := ops.deviceIdentifiers.value;
      if 0 < count <= MAX_DESCRIPTORS_COUNT {
        var r := DeviceIds.New(InstanceId(payload[0]), SUCCESS, ds[0], ds[1..count]).value;
        assert DeviceIds.Wire(r)[..3] == r.hdr;
        RespondEchoes(payload, DeviceIds.Wire(r));
      } else {
        BrokenAnswers(payload);
      }
    } else {
      BrokenAnswers(payload);
    }
  }

  lemma SetupAnswers(opcode: byte, s: Fd, payload: seq<byte>, ops: Platform)
    requires |payload| >= HEADER_LEN && PldmType(payload[1]) == TYPE_FW_UPDATE && payload[2] == opcode
    requires opcode as int in SETUP
    ensures Answers(payload, Command(opcode, s, payload, ops))
  {
    hide Reply, Fail, Broken, Answers, ParseRequest, QueryDeviceIdentifiers, Cancellable;
    FailAnswers(payload);
    BrokenAnswers(payload);
    ReplyAnswers(payload, opcode);
  }

  lemma EndingAnswers(opcode: byte, s: Fd, payload: seq<byte>, ops: Platform)
    requires |payload| >= HEADER_LEN && PldmType(payload[1]) == TYPE_FW_UPDATE && payload[2] == opcode
    requires opcode as int in ENDING
    ensures Answers(payload, Command(opcode, s, payload, ops))
  {
    hide Reply, Fail, Broken, Answers, ParseRequest, QueryDeviceIdentifiers, Cancellable;
    FailAnswers(payload);
    BrokenAnswers(payload);
    ReplyAnswers(payload, opcode);
  }

  lemma OthersAnswer(opcode: byte, s: Fd, payload: seq<byte>, ops: Platform)
    requires |payload| >= HEADER_LEN && PldmType(payload[1]) == TYPE_FW_UPDATE && payload[2] == opcode
    requires opcode as int !in SETUP + ENDING
    ensures Answers(payload, Command(opcode, s, payload, ops))
  {
    hide Reply, Fail, Broken, Answers, ParseRequest, QueryDeviceIdentifiers, Cancellable;
    FailAnswers(payload);
    BrokenAnswers(payload);
    ReplyAnswers(payload, opcode);
    if opcode == 0x01 { DeviceIdsAnswers(payload, ops); }
  }

  /** Whatever a command handler returns, a reply echoes the request and an error writes nothing. */
  lemma CommandAnswers(opcode: byte, s: Fd, payload: seq<byte>, ops: Platform)
    requires |payload| >= HEADER_LEN && PldmType(payload[1]) == TYPE_FW_UPDATE && payload[2] == opcode
    ensures Answers(payload, Command(opcode, s, payload, ops))
  {
    hide Command, Answers;
    if opcode as int in SETUP {
      SetupAnswers(opcode, s, payload, ops);
    } else if opcode as int in ENDING {
      EndingAnswers(opcode, s, payload, ops);
    } else {
      OthersAnswer(opcode, s, payload, ops);
    }
  }

  // ---- GetStatus ----

  /** In every reachable state GetStatus can report its progress, never shows Activate as the
      current state, never gives the two timeout reasons no run can reach, and gives the force
      flag of the component under update. */
  lemma GetStatusReports(s: Fd, payload: seq<byte>, ops: Platform)
    requires Inv(s) && |payload| >= 14
    ensures var o := GetStatus(s, payload, ops);
      && o.result == Ok(14) && o.payload[3] == SUCCESS
      && o.payload[4] == StateCode(s.state) && o.payload[4] != 6
      && o.payload[5] == StateCode(s.prev)
      && o.payload[8] <= 101
      && o.payload[9] !in {3, 4}
      && o.payload[10] == s.flags % 2
      && (s.req.state == Failed && InPhase(s) ==> o.payload[6] == 2 && o.payload[7] != 0)
  {
  }

  // ---- Timing out ----

  function TimeoutReason(state: DeviceState): Reason {
    match state
    case Download => DownloadTimeout
    case Verify => VerifyTimeout
    case _ => ApplyTimeout
  }

  /** Once T1 has passed on an outstanding request, the next progress call whose cancel
      callback succeeds sends nothing and ends the update in Idle with that phase's reason. */
  lemma TimeoutEndsTheUpdate(s: Fd, payload: seq<byte>, ops: Platform)
    requires Inv(s) && InPhase(s) && s.req.state == Sent
    requires Overdue(s, ops.clock.check) && ops.cancelUpdateComponent.Returns?
    ensures var o, t := Progress(s, payload, ops), Perform(s, Progress(s, payload, ops).act);
      && o.result == Err(T1Timeout) && o.payload == payload
      && t.state == Idle && t.prev == s.state && t.reason == Some(TimeoutReason(s.state))
      && t.req == FreshReq(Unused)
  {
  }

  /** While T1 has not passed, progress never ends the update. */
  lemma ProgressOnTimeKeepsPhase(s: Fd, payload: seq<byte>, ops: Platform)
    requires Inv(s) && (s.req.state == Sent ==> !Overdue(s, ops.clock.check))
    ensures Perform(s, Progress(s, payload, ops).act).state == s.state
  {
  }

  // ---- Retries ----

  /** A retry of TransferComplete repeats the stored result. */
  lemma TransferRetryRepeatsResult(s: Fd, payload: seq<byte>, ops: Platform)
    requires Inv(s) && s.state == Download && s.req.complete && MaySend(s, ops.clock) && |payload| >= 4
    ensures var o, t := Progress(s, payload, ops), Perform(s, Progress(s, payload, ops).act);
      && o.result == Ok(4)
      && o.payload[2] == CMD_TRANSFER_COMPLETE && Some(o.payload[3]) == s.req.result
      && t.req.result == s.req.result
  {
  }

  /** A retry of VerifyComplete or ApplyComplete does not: it sends and records a generic
      error, whatever the first attempt said, and the platform is not asked again. */
  lemma WorkRetrySendsGenericError(s: Fd, payload: seq<byte>, ops: Platform)
    requires Inv(s) && s.state in {Verify, Apply} && s.req.state == Sent
    requires MaySend(s, ops.clock) && |payload| >= (if s.state == Verify then 4 else 6)
    ensures var o, t := Progress(s, payload, ops), Perform(s, Progress(s, payload, ops).act);
      && o.result.Ok? && o.payload[2] == CompleteCommand(s.state) && o.payload[3] == RESULT_GENERIC_ERROR
      && t.req.result == Some(RESULT_GENERIC_ERROR)
      && o.act.Work? && o.act.call == None
  {
  }

  // ---- Cancelling ----

  /** From a failed request both cancel commands take their cancel branch. */
  lemma FailedCanBeCancelled(s: Fd, payload: seq<byte>, ops: Platform)
    requires Inv(s) && InPhase(s) && s.req.state == Failed
    requires ops.cancelUpdateComponent.Returns? && ops.nonFunctional.Returns? && |payload| >= 13
    ensures var o := CancelUpdateComponent(s, payload, ops);
      o.act == CancelComponent && o.result == Ok(4) && o.payload[3] == SUCCESS
    ensures var o := CancelUpdate(s, payload, ops);
      o.act == CancelAll(ops.clock.check) && o.result == Ok(13) && o.payload[3] == SUCCESS
  {
  }

  /** CancelUpdate takes effect exactly in a phase that has not already applied its image. It
      is refused in LearnComponents and ReadyXfer. */
  lemma CancelUpdateTakesEffectIff(s: Fd, payload: seq<byte>, ops: Platform)
    requires Inv(s) && ops.cancelUpdateComponent.Returns? && ops.nonFunctional.Returns? && |payload| >= 13
    ensures Perform(s, CancelUpdate(s, payload, ops).act).state != s.state <==> Cancellable(s)
    ensures !Cancellable(s) ==> CancelUpdate(s, payload, ops).payload[3] in {ERROR, NOT_IN_UPDATE_MODE}
  {
  }

  /** When the platform's cancel callback has succeeded, the device stays in its phase all the
      same exactly when a later step fails: the payload cannot hold the reply, or CancelUpdate
      gets no component information. It then changes at most the T1 timestamp. */
  lemma PlatformCancelIsLostIff(s: Fd, opcode: byte, payload: seq<byte>, ops: Platform)
    requires opcode in {0x1C, 0x1D} && Cancellable(s) && ops.cancelUpdateComponent.Returns?
    ensures var act := Command(opcode, s, payload, ops).act;
      var fails := |payload| < (if opcode == 0x1C then 4 else 13) || (opcode == 0x1D && ops.nonFunctional.Fails?);
      && (Perform(s, act).state == s.state <==> fails)
      && (act.CancelLost? <==> fails)
      && (fails ==> Perform(s, act) == s.(t1Stamp := Perform(s, act).t1Stamp))
  {
    hide Le64;
  }

  /** Cancelling leaves the request record as it was, so a response to the cancelled request is
      still matched; it is then refused, and refreshes T1 and nothing else. */
  lemma CancelledRequestIsStillMatched(s: Fd, cancel: Action, payload: seq<byte>, ops: Platform)
    requires Inv(s) && IsCancel(cancel) && Enabled(s, cancel)
    requires |payload| >= HEADER_LEN && Matches(s, payload)
    ensures var t := Perform(s, cancel);
      && t.req == s.req && !InPhase(t) && Inv(t)
      && HandleResponse(t, payload, ops).0 == Err(FdInitiatorModeError)
      && Perform(t, HandleResponse(t, payload, ops).1) == t.(t1Stamp := ops.clock.check)
  {
  }

  // ---- The reply to UpdateComponent ----

  /** The device echoes the option flags but never sends the field that bit 1 announces, so
      its own decoder reads the reply exactly when the agent left that bit clear. */
  lemma UpdateComponentReplyDecodesIff(s: Fd, payload: seq<byte>, ops: Platform)
    requires s.state == ReadyXfer && ops.firmwareParams.Returns? && ops.handleComponent.Returns?
    requires ParseRequest(payload, UPDATE_COMPONENT_FIXED_LEN).Ok?
    ensures var o := UpdateComponent(s, payload, ops);
      o.result == Ok(12) &&
      (ParseUpdateComponentResponse(o.payload[..12]).Ok? <==> !ComponentOpaqueData(FromLe32(payload[16..])))
  {
    var o := UpdateComponent(s, payload, ops);
    var flags := FromLe32(payload[16..]);
    var fixed := payload[..22];
    assert fixed[16..][0] == payload[16] && fixed[16..][1] == payload[17];
    assert fixed[16..][2..][0] == payload[18] && fixed[16..][2..][1] == payload[19];
    assert FromLe32(fixed[16..]) == flags;
    var reply := o.payload[..12];
    assert reply[6..] == Le32(flags) + Le16(0);
    ReadLe32(flags, Le16(0));
  }
}
