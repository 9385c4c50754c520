// Runs made of calls: every action of such a run is the one some handler call takes. A whole
// update, from RequestUpdate to the finished component, is one.
module FdCalls {
  import opened Bytes
  import opened Base
  import opened FirmwareParameters
  import opened FirmwareStrings
  import opened UpdateMessages
  import opened FdState
  import opened FdInvariant
  import opened FdHandlers
  import opened FdHandlerLaws
  import opened FdOutcomes
  import opened FdDownload

  /** A call of the device: a command, a progress call or a received response. */
  datatype Call =
    | Asks(opcode: byte, payload: seq<byte>, ops: Platform)
    | Progresses(payload: seq<byte>, ops: Platform)
    | Responds(payload: seq<byte>, ops: Platform)

  /** The action a call takes. */
  function ActOf(s: Fd, c: Call): Action
    requires Inv(s)
  {
    match c
    case Asks(opcode, payload, ops) => Command(opcode, s, payload, ops).act
    case Progresses(payload, ops) => Progress(s, payload, ops).act
    case Responds(payload, ops) => HandleResponse(s, payload, ops).1
  }

  /** The actions are those of the calls, one for one. */
  ghost predicate Serves(s: Fd, acts: seq<Action>, calls: seq<Call>) {
    && |acts| == |calls|
    && (acts != [] ==>
          var k := |acts| - 1;
          && Serves(s, acts[..k], calls[..k]) && Inv(After(s, acts[..k]))
          && acts[k] == ActOf(After(s, acts[..k]), calls[k]))
  }

  predicate NoCommands(calls: seq<Call>) { forall i :: 0 <= i < |calls| ==> !calls[i].Asks? }

  lemma ActIsEnabled(s: Fd, c: Call)
    requires Inv(s)
    ensures Enabled(s, ActOf(s, c))
  {
    match c
    case Asks(opcode, payload, ops) => CommandIsEnabled(opcode, s, payload, ops);
    case Progresses(payload, ops) => ProgressIsEnabled(s, payload, ops);
    case Responds(payload, ops) => ResponseIsEnabled(s, payload, ops);
  }

  lemma {:induction false} ServedIsLegal(s: Fd, acts: seq<Action>, calls: seq<Call>)
    requires Serves(s, acts, calls)
    ensures Legal(s, acts)
  {
    hide ActOf, Enabled, Inv;
    if acts == [] {
    } else {
      var k := |acts| - 1;
      ServedIsLegal(s, acts[..k], calls[..k]);
      ActIsEnabled(After(s, acts[..k]), calls[k]);
    }
  }

  lemma ServesNothing(s: Fd)
    ensures Serves(s, [], []) && After(s, []) == s
  {
  }

  /** The call at position `n` of a served run. */
  lemma {:induction false} ServedAt(s: Fd, acts: seq<Action>, calls: seq<Call>, n: nat)
    requires Serves(s, acts, calls) && n < |acts|
    ensures |calls| == |acts| && Inv(After(s, acts[..n])) && acts[n] == ActOf(After(s, acts[..n]), calls[n])
    decreases |acts|
  {
    hide ActOf, Inv, After;
    var k := |acts| - 1;
    if n < k {
      ServedAt(s, acts[..k], calls[..k], n);
      assert acts[..k][..n] == acts[..n];
    }
  }

  lemma ServesOneMore(s: Fd, acts: seq<Action>, calls: seq<Call>, c: Call)
    requires Serves(s, acts, calls) && Inv(After(s, acts))
    ensures var a := ActOf(After(s, acts), c);
      && Serves(s, acts + [a], calls + [c]) && Enabled(After(s, acts), a)
      && After(s, acts + [a]) == Perform(After(s, acts), a) && Inv(Perform(After(s, acts), a))
  {
    hide ActOf, Enabled, Inv, Perform;
    var a := ActOf(After(s, acts), c);
    assert (acts + [a])[..|acts|] == acts && (calls + [c])[..|calls|] == calls;
    ActIsEnabled(After(s, acts), c);
    StepKeepsInv(After(s, acts), a);
  }

  lemma ServesPair(s: Fd, c: Call, d: Call)
    requires Inv(s)
    ensures var a := ActOf(s, c);
      var t := Perform(s, a);
      && Inv(t) && Serves(s, [a, ActOf(t, d)], [c, d])
      && After(s, [a, ActOf(t, d)]) == Perform(t, ActOf(t, d)) && Inv(Perform(t, ActOf(t, d)))
  {
    hide Serves, After, ActOf, Enabled, Inv, Perform;
    ServesNothing(s);
    ServesOneMore(s, [], [], c);
    var a := ActOf(s, c);
    assert [] + [a] == [a] && [] + [c] == [c];
    ServesOneMore(s, [a], [c], d);
    var b := ActOf(Perform(s, a), d);
    assert [a] + [b] == [a, b] && [c] + [d] == [c, d];
  }

  lemma {:induction false} ServesConcat(s: Fd, a: seq<Action>, c: seq<Call>, b: seq<Action>, d: seq<Call>)
    requires Serves(s, a, c) && Serves(After(s, a), b, d)
    ensures Serves(s, a + b, c + d) && After(s, a + b) == After(After(s, a), b)
    decreases |b|
  {
    hide ActOf, Inv, Perform;
    if b == [] {
      assert a + b == a && c + d == c;
    } else {
      var k := |b| - 1;
      ServesConcat(s, a, c, b[..k], d[..k]);
      assert (a + b)[..|a| + k] == a + b[..k] && (c + d)[..|a| + k] == c + d[..k];
    }
  }

  // ---- Setting an update up ----

  const REQUEST_UPDATE: seq<byte> := [0x80, TYPE_FW_UPDATE, 0x10, 32, 0, 0, 0, 1, 0, 1, 0, 0, 0, 0]

  const PASS_LAST_COMPONENT: seq<byte> := [0x80, TYPE_FW_UPDATE, 0x13, 5, 0, 0, 0, 0, 0, 0, 0, 0, 0, 0, 0]

  /** An UpdateComponent request that describes this component. */
  function UpdateRequest(c: Component): seq<byte>
    requires Describable(c)
  {
    [0x80, TYPE_FW_UPDATE, 0x14] + ComponentWire(c)
  }

  /** A platform that grants what these commands ask. */
  predicate Grants(ops: Platform, xfer: u32) {
    && ops.xferSize == Returns(xfer as nat) && ops.firmwareParams.Returns?
    && ops.handleComponent == Returns(COMP_CAN_BE_UPDATED)
  }

  lemma RequestActs(s: Fd, ops: Platform, xfer: u32)
    requires s.state == Idle && Grants(ops, xfer)
    ensures Command(0x10, s, REQUEST_UPDATE, ops).act == Negotiate(ops.clock.check, xfer)
  {
  }

  lemma PassActs(s: Fd, ops: Platform, xfer: u32)
    requires s.state == LearnComponents && Grants(ops, xfer)
    ensures Command(0x13, s, PASS_LAST_COMPONENT, ops).act == LastPassed(ops.clock.check)
  {
  }

  lemma UpdateActs(s: Fd, ops: Platform, xfer: u32, c: Component)
    requires s.state == ReadyXfer && Grants(ops, xfer) && Describable(c)
    ensures Command(0x14, s, UpdateRequest(c), ops).act == Store(ops.clock.check, c, c.optionFlags.value, true)
  {
    hide ParseRequest, ComponentOf, ComponentWire;
    ComponentArrives([0x80, TYPE_FW_UPDATE, 0x14], c, []);
    assert ComponentWire(c) + [] == ComponentWire(c);
  }

  function SetupCalls(c: Component, ops: Platform): seq<Call>
    requires Describable(c)
  {
    [Asks(0x10, REQUEST_UPDATE, ops), Asks(0x13, PASS_LAST_COMPONENT, ops), Asks(0x14, UpdateRequest(c), ops)]
  }

  function SetupActs(xfer: u32, c: Component, ops: Platform): seq<Action>
    requires Describable(c)
  {
    [Negotiate(ops.clock.check, xfer), LastPassed(ops.clock.check),
     Store(ops.clock.check, c, c.optionFlags.value, true)]
  }

  /** Three commands take an idle device to the download of any component. */
  lemma SetupIsServed(s: Fd, xfer: u32, c: Component, ops: Platform)
    requires Inv(s) && s.state == Idle && Grants(ops, xfer) && Describable(c)
    ensures Serves(s, SetupActs(xfer, c, ops), SetupCalls(c, ops))
    ensures var t := After(s, SetupActs(xfer, c, ops));
      && Inv(t) && t.state == Download && t.req == FreshReq(Ready) && t.phase == DownloadPhase(0, 0)
      && t.comp == c && Some(t.flags) == c.optionFlags && t.maxXfer == xfer
      && t.t1Stamp == ops.clock.check && t.t2Retry == s.t2Retry
  {
    hide Serves, After, Inv, Command, UpdateRequest;
    var acts, calls := SetupActs(xfer, c, ops), SetupCalls(c, ops);
    RequestActs(s, ops, xfer);
    var u := Perform(s, acts[0]);
    PassActs(u, ops, xfer);
    ServesPair(s, calls[0], calls[1]);
    var v := Perform(u, acts[1]);
    UpdateActs(v, ops, xfer, c);
    ServesOneMore(s, [acts[0], acts[1]], [calls[0], calls[1]], calls[2]);
    assert [acts[0], acts[1]] + [acts[2]] == acts && [calls[0], calls[1]] + [calls[2]] == calls;
  }

  // ---- Finishing it ----

  /** The update agent's answer to a completion report. */
  function Acknowledgement(id: byte, command: byte): seq<byte> { [id, TYPE_FW_UPDATE, command, SUCCESS] }

  lemma AcknowledgementActs(s: Fd, id: byte, command: byte, ops: Platform)
    requires Inv(s) && InPhase(s) && s.req.state == Sent && s.req.complete
    requires s.req.instanceId == Some(id) && s.req.command == Some(command)
    ensures HandleResponse(s, Acknowledgement(id, command), ops).1
      == Answered(ops.clock.check, id, command, Acknowledged)
  {
    assert InstanceId(id) == id;
  }

  function ReportCalls(s: Fd, buffer: seq<byte>, ops: Platform): seq<Call> {
    [Progresses(buffer, ops), Responds(Acknowledgement(NextInstanceId(s.req.instanceId), CMD_TRANSFER_COMPLETE), ops)]
  }

  lemma ReportActs(s: Fd, buffer: seq<byte>, ops: Platform)
    requires Inv(s) && s.state == Download && |buffer| >= 4
    requires s.req.state == Ready && s.req.complete && s.req.result == Some(RESULT_SUCCESS)
    ensures Progress(s, buffer, ops).act == ReportTransfer(ops.clock)
  {
  }

  /** A completed download is reported and acknowledged. */
  lemma TransferIsReported(s: Fd, buffer: seq<byte>, ops: Platform) returns (acts: seq<Action>)
    requires Inv(s) && s.state == Download && |buffer| >= 4
    requires s.req.state == Ready && s.req.complete && s.req.result == Some(RESULT_SUCCESS)
    ensures Serves(s, acts, ReportCalls(s, buffer, ops)) && DeliveredIn(acts) == []
    ensures var t := After(s, acts);
      && Inv(t) && t.state == Verify && t.req == FreshReq(Ready) && t.comp == s.comp && t.flags == s.flags
  {
    hide Serves, After, Inv, HandleResponse;
    var calls := ReportCalls(s, buffer, ops);
    ReportActs(s, buffer, ops);
    ServesPair(s, calls[0], calls[1]);
    var a := ReportTransfer(ops.clock);
    var id := NextInstanceId(s.req.instanceId);
    AcknowledgementActs(Perform(s, a), id, CMD_TRANSFER_COMPLETE, ops);
    var b := Answered(ops.clock.check, id, CMD_TRANSFER_COMPLETE, Acknowledged);
    acts := [a, b];
    DeliveredInTurns(a, b);
  }

  /** Verification and application succeed. */
  predicate Succeeds(ops: Platform) {
    && ops.verify.Returns? && ops.verify.value.0 == RESULT_SUCCESS && ops.verify.value.1 >= 100
    && ops.apply.Returns? && ops.apply.value.0 == RESULT_SUCCESS && ops.apply.value.1 >= 100
  }

  function Achieved(state: DeviceState, ops: Platform): Option<(byte, Percent)>
    requires Succeeds(ops)
  {
    Some((RESULT_SUCCESS, if state == Verify then ops.verify.value.1 else ops.apply.value.1))
  }

  lemma WorkActs(s: Fd, buffer: seq<byte>, ops: Platform)
    requires Inv(s) && s.state in {Verify, Apply} && s.req == FreshReq(Ready) && |buffer| >= 6 && Succeeds(ops)
    ensures Progress(s, buffer, ops).act == Work(ops.clock, s.state, s.comp, Achieved(s.state, ops), OnTheWire)
  {
  }

  function WorkCalls(state: DeviceState, buffer: seq<byte>, ops: Platform): seq<Call> {
    [Progresses(buffer, ops), Responds(Acknowledgement(1, CompleteCommand(state)), ops)]
  }

  /** The platform's work succeeds at once and its report is acknowledged. */
  lemma WorkIsReported(s: Fd, buffer: seq<byte>, ops: Platform) returns (acts: seq<Action>)
    requires Inv(s) && s.state in {Verify, Apply} && s.req == FreshReq(Ready) && |buffer| >= 6 && Succeeds(ops)
    ensures Serves(s, acts, WorkCalls(s.state, buffer, ops)) && |acts| == 2 && DeliveredIn(acts) == []
    ensures acts[1].Answered? && After(s, acts) == Perform(Perform(s, acts[0]), acts[1]) && Inv(After(s, acts))
    ensures var u := Perform(s, acts[0]); u.state == s.state && u.comp == s.comp && u.flags == s.flags
    ensures var t := After(s, acts);
      && t.comp == s.comp && t.flags == s.flags
      && (s.state == Verify ==> t.state == Apply && t.req == FreshReq(Ready))
      && (s.state == Apply ==> t.state == ReadyXfer)
  {
    hide Serves, After, Inv, HandleResponse, Progress;
    var calls := WorkCalls(s.state, buffer, ops);
    WorkActs(s, buffer, ops);
    ServesPair(s, calls[0], calls[1]);
    var a := Work(ops.clock, s.state, s.comp, Achieved(s.state, ops), OnTheWire);
    AcknowledgementActs(Perform(s, a), 1, CompleteCommand(s.state), ops);
    var b := Answered(ops.clock.check, 1, CompleteCommand(s.state), Acknowledged);
    acts := [a, b];
    DeliveredInTurns(a, b);
  }

  lemma ServedLength(s: Fd, acts: seq<Action>, calls: seq<Call>)
    requires Serves(s, acts, calls)
    ensures |acts| == |calls|
  {
  }

  lemma BeforeLast(s: Fd, acts: seq<Action>, pair: seq<Action>)
    requires |pair| == 2
    ensures After(s, (acts + pair)[..|acts| + 1]) == Perform(After(s, acts), pair[0])
  {
    var all := (acts + pair)[..|acts| + 1];
    assert all[..|acts|] == acts && all[|acts|] == pair[0];
  }

  /** From a completed download to a finished component: six calls, the last of which is the
      answer that takes the device from Apply to ReadyXfer. */
  lemma FinishIsServed(s: Fd, buffer: seq<byte>, ops: Platform) returns (acts: seq<Action>, calls: seq<Call>)
    requires Inv(s) && s.state == Download && |buffer| >= 6 && Succeeds(ops)
    requires s.req.state == Ready && s.req.complete && s.req.result == Some(RESULT_SUCCESS)
    ensures Serves(s, acts, calls) && |acts| == 6 && acts[5].Answered? && DeliveredIn(acts) == [] && NoCommands(calls)
    ensures Inv(After(s, acts)) && After(s, acts).state == ReadyXfer && After(s, acts).comp == s.comp
    ensures var u := After(s, acts[..5]); u.state == Apply && u.comp == s.comp && u.flags == s.flags
  {
    hide Serves, After, Inv, Perform, DeliveredIn;
    var report := TransferIsReported(s, buffer, ops);
    var u := After(s, report);
    var verify := WorkIsReported(u, buffer, ops);
    var v := After(u, verify);
    var apply := WorkIsReported(v, buffer, ops);
    ServesConcat(s, report, ReportCalls(s, buffer, ops), verify, WorkCalls(Verify, buffer, ops));
    acts, calls := report + verify, ReportCalls(s, buffer, ops) + WorkCalls(Verify, buffer, ops);
    DeliveredConcat(report, verify);
    ServesConcat(s, acts, calls, apply, WorkCalls(Apply, buffer, ops));
    DeliveredConcat(acts, apply);
    ServedLength(s, report, ReportCalls(s, buffer, ops));
    BeforeLast(s, acts, apply);
    acts, calls := acts + apply, calls + WorkCalls(Apply, buffer, ops);
  }

  // ---- A whole update ----

  function PairOfCalls(x: Session, image: seq<byte>, buffer: seq<byte>, ops: (Platform, Platform)): seq<Call>
    requires Inv(x.fd) && |x.stored| <= |image| && |buffer| >= REQUEST_LEN
  {
    ProgressKeepsLength(x.fd, buffer, Wanting(ops.0, x.stored, image));
    var answer := AgentAnswer(Ask(x, image, buffer, ops.0).payload, image);
    [Progresses(buffer, Wanting(ops.0, x.stored, image)),
     Responds(answer, Storing(ops.1, x.stored + answer[4..], image))]
  }

  ghost function ExchangeCalls(x: Session, image: seq<byte>, buffer: seq<byte>,
                               ops: seq<(Platform, Platform)>): seq<Call>
    requires Downloading(x, image) && |buffer| >= REQUEST_LEN
    decreases |ops|
  {
    if ops == [] then []
    else
      var y := Exchange(x, image, buffer, ops[0]);
      PairOfCalls(x, image, buffer, ops[0]) +
      (if Downloading(y, image) then ExchangeCalls(y, image, buffer, ops[1..]) else [])
  }

  lemma TurnsAreServed(x: Session, image: seq<byte>, buffer: seq<byte>, ops: (Platform, Platform))
    requires Inv(x.fd) && |x.stored| <= |image| && |buffer| >= REQUEST_LEN
    ensures var (asked, answered) := Turns(x, image, buffer, ops);
      Serves(x.fd, [asked, answered], PairOfCalls(x, image, buffer, ops))
    ensures NoCommands(PairOfCalls(x, image, buffer, ops))
  {
    hide Serves, After, Inv, Progress, HandleResponse, Perform, AgentAnswer;
    var calls := PairOfCalls(x, image, buffer, ops);
    ServesPair(x.fd, calls[0], calls[1]);
  }

  lemma {:induction false} ExchangesAreServed(x: Session, image: seq<byte>, buffer: seq<byte>,
                                              ops: seq<(Platform, Platform)>)
    requires Downloading(x, image) && |buffer| >= REQUEST_LEN
    ensures Serves(x.fd, ExchangeActs(x, image, buffer, ops), ExchangeCalls(x, image, buffer, ops))
    ensures NoCommands(ExchangeCalls(x, image, buffer, ops))
    decreases |ops|
  {
    hide Turns, Exchange, PairOfCalls, Inv, Downloading, After, Serves;
    if ops == [] {
      ServesNothing(x.fd);
    } else {
      ImageOf(x, image);
      TurnsRun(x, image, buffer, ops[0]);
      TurnsAreServed(x, image, buffer, ops[0]);
      var (asked, answered) := Turns(x, image, buffer, ops[0]);
      var y := Exchange(x, image, buffer, ops[0]);
      if Downloading(y, image) {
        ExchangesAreServed(y, image, buffer, ops[1..]);
        ServesConcat(x.fd, [asked, answered], PairOfCalls(x, image, buffer, ops[0]),
                     ExchangeActs(y, image, buffer, ops[1..]), ExchangeCalls(y, image, buffer, ops[1..]));
      } else {
        assert [asked, answered] + [] == [asked, answered];
        assert PairOfCalls(x, image, buffer, ops[0]) + [] == PairOfCalls(x, image, buffer, ops[0]);
      }
    }
  }

  lemma FrontOf(s: Fd, a: seq<Action>, c: seq<Call>, b: seq<Action>, d: seq<Call>)
    requires Serves(s, a, c) && Serves(After(s, a), b, d) && b != []
    ensures After(s, (a + b)[..|a + b| - 1]) == After(After(s, a), b[..|b| - 1])
  {
    hide ActOf, Inv, Perform;
    var k := |b| - 1;
    ServesConcat(s, a, c, b[..k], d[..k]);
    assert (a + b)[..|a| + k] == a + b[..k];
  }

  /** From an accepted component on: as many exchanges as there are pieces deliver exactly the
      image, and six more calls finish the component. */
  lemma DownloadAndFinish(s: Fd, image: seq<byte>, buffer: seq<byte>, ops: seq<(Platform, Platform)>, working: Platform)
    returns (acts: seq<Action>, calls: seq<Call>)
    requires Downloading(Session(s, []), image) && s.maxXfer > 0 && |buffer| >= REQUEST_LEN && Succeeds(working)
    requires |ops| == PiecesLeft(|image|, s.maxXfer)
    ensures Serves(s, acts, calls) && |acts| == 2 * |ops| + 6 && DeliveredIn(acts) == image && NoCommands(calls)
    ensures var n := |acts| - 1;
      && acts[n].Answered? && After(s, acts[..n]).state == Apply && After(s, acts).state == ReadyXfer
      && After(s, acts).comp == s.comp && Inv(After(s, acts))
  {
    hide Serves, After, Legal, Inv, Perform, DeliveredIn, ExchangeActs, ExchangeCalls, Exchanges;
    var x := Session(s, []);
    ExchangesAreServed(x, image, buffer, ops);
    ExchangesAreRun(x, image, buffer, ops);
    DownloadTerminates(x, image, buffer, ops);
    TwoActionsEach(x, image, buffer, ops);
    var first, firstCalls := ExchangeActs(x, image, buffer, ops), ExchangeCalls(x, image, buffer, ops);
    var y := Exchanges(x, image, buffer, ops);
    var last, lastCalls := FinishIsServed(y.fd, buffer, working);
    ServesConcat(s, first, firstCalls, last, lastCalls);
    FrontOf(s, first, firstCalls, last, lastCalls);
    DeliveredConcat(first, last);
    assert [] + DeliveredIn(first) == DeliveredIn(first) == DeliveredIn(first) + [];
    acts, calls := first + last, firstCalls + lastCalls;
  }

  lemma SetupDeliversNothing(xfer: u32, c: Component, ops: Platform)
    requires Describable(c)
    ensures DeliveredIn(SetupActs(xfer, c, ops)) == []
  {
    hide Describable;
    var acts := SetupActs(xfer, c, ops);
    assert acts[..2] == [acts[0], acts[1]];
    DeliveredInTurns(acts[0], acts[1]);
  }

  /** A whole update in calls. An idle device is asked to update any component to any image; the
      platform grants it with a nonzero transfer size, wants the bytes it lacks and
      succeeds in its work; the agent answers every request. Then the exchanges deliver exactly
      the image, and the last call finishes the component. */
  lemma UpdateFinishes(s: Fd, xfer: u32, c: Component, image: seq<byte>, buffer: seq<byte>, granting: Platform,
                       ops: seq<(Platform, Platform)>, working: Platform)
    returns (acts: seq<Action>, calls: seq<Call>)
    requires Inv(s) && s.state == Idle && Grants(granting, xfer) && Succeeds(working)
    requires Describable(c) && c.imageSize == Some(|image|)
    requires 0 < xfer && |image| + MAX_PADDING_SIZE < U32_MODULUS && |buffer| >= REQUEST_LEN
    requires |ops| == PiecesLeft(|image|, xfer)
    ensures Serves(s, acts, calls) && Legal(s, acts) && |acts| == 3 + 2 * |ops| + 6
    ensures acts[..3] == SetupActs(xfer, c, granting) && calls[..3] == SetupCalls(c, granting) && NoCommands(calls[3..])
    ensures DeliveredIn(acts) == image
    ensures var n := |acts| - 1;
      && acts[n].Answered? && After(s, acts[..n]).state == Apply && After(s, acts).state == ReadyXfer
      && After(s, acts).comp == c && Inv(After(s, acts))
  {
    hide Serves, After, Legal, Inv, Perform, DeliveredIn, Describable;
    SetupIsServed(s, xfer, c, granting);
    var setup, setupCalls := SetupActs(xfer, c, granting), SetupCalls(c, granting);
    var rest, restCalls := DownloadAndFinish(After(s, setup), image, buffer, ops, working);
    ServesConcat(s, setup, setupCalls, rest, restCalls);
    FrontOf(s, setup, setupCalls, rest, restCalls);
    SetupDeliversNothing(xfer, c, granting);
    DeliveredConcat(setup, rest);
    assert [] + image == image;
    acts, calls := setup + rest, setupCalls + restCalls;
    ServedIsLegal(s, acts, calls);
    ServedLength(s, acts, calls);
    assert calls[3..] == restCalls;
  }

  // ---- Activating it ----

  const ACTIVATE_FIRMWARE: seq<byte> := [0x80, TYPE_FW_UPDATE, 0x1A, 1, 0, 0]

  lemma ActivateActs(s: Fd, ops: Platform)
    requires s.state == ReadyXfer && ops.activate.Returns? && ops.activate.value.0 in {SUCCESS, ACTIVATION_NOT_REQUIRED}
    ensures Command(0x1A, s, ACTIVATE_FIRMWARE, ops).act == ActivateAll
  {
  }

  lemma ActivationDeliversNothing()
    ensures DeliveredIn([ActivateAll]) == []
  {
    assert [ActivateAll][..0] == [];
  }

  /** With one more command the update is over: the device is idle again, because the finished
      component was activated, and the run has delivered exactly the image. */
  lemma UpdateIsActivated(s: Fd, xfer: u32, c: Component, image: seq<byte>, buffer: seq<byte>, granting: Platform,
                          ops: seq<(Platform, Platform)>, working: Platform, activating: Platform)
    returns (acts: seq<Action>, calls: seq<Call>)
    requires Inv(s) && s.state == Idle && Grants(granting, xfer) && Succeeds(working)
    requires Describable(c) && c.imageSize == Some(|image|)
    requires 0 < xfer && |image| + MAX_PADDING_SIZE < U32_MODULUS && |buffer| >= REQUEST_LEN
    requires |ops| == PiecesLeft(|image|, xfer)
    requires activating.activate.Returns? && activating.activate.value.0 in {SUCCESS, ACTIVATION_NOT_REQUIRED}
    ensures Serves(s, acts, calls) && Legal(s, acts) && |acts| == |calls| == 3 + 2 * |ops| + 6 + 1
    ensures acts[..3] == SetupActs(xfer, c, granting) && calls[..3] == SetupCalls(c, granting)
    ensures NoCommands(calls[3..|calls| - 1])
    ensures acts[|acts| - 1] == ActivateAll && calls[|calls| - 1] == Asks(0x1A, ACTIVATE_FIRMWARE, activating)
    ensures DeliveredIn(acts) == image
    ensures var t := After(s, acts);
      t.state == Idle && t.prev == Activate && t.reason == Some(Activated) && t.comp == c
  {
    hide Serves, After, Legal, Inv, DeliveredIn, Describable, SetupActs, SetupCalls;
    var front, frontCalls := UpdateFinishes(s, xfer, c, image, buffer, granting, ops, working);
    var last := Asks(0x1A, ACTIVATE_FIRMWARE, activating);
    ActivateActs(After(s, front), activating);
    ServesOneMore(s, front, frontCalls, last);
    DeliveredConcat(front, [ActivateAll]);
    ActivationDeliversNothing();
    acts, calls := front + [ActivateAll], frontCalls + [last];
    ServedIsLegal(s, acts, calls);
    ServedLength(s, acts, calls);
    assert calls[3..|calls| - 1] == frontCalls[3..] && acts[..3] == front[..3] && calls[..3] == frontCalls[..3];
    assert image + [] == image;
  }
}
