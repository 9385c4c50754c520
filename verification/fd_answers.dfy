// What the platform and the update agent must have answered for a component to finish, and
// what becomes of an update when one of them reports a failure.
module FdAnswers {
  import opened Bytes
  import opened Base
  import opened UpdateMessages
  import opened FdState
  import opened FdInvariant
  import opened FdHandlers
  import opened FdOutcomes
  import opened FdRuns
  import opened FdRepeats
  import opened FdInitiator
  import opened FdCalls

  // ---- The calls behind the milestones ----

  /** The platform judged that the component can be updated. */
  predicate AcceptedBy(call: Call, c: Component) {
    && call.Asks? && call.opcode == 0x14 && Readable(call.payload, 22)
    && Describable(c) && ComponentWire(c) <= call.payload[3..]
    && call.ops.firmwareParams.Returns? && call.ops.handleComponent.Returns? && call.ops.handleComponent.value == 0
  }

  /** The update agent sent data, which the platform took, and with it the image was complete. */
  predicate DownloadedBy(call: Call) {
    && call.Responds? && |call.payload| >= 4 && call.payload[2] == 0x15 && call.payload[3] == 0
    && call.ops.downloadFwData.Returns? && call.ops.downloadFwData.value == 0 && call.ops.isDownloadComplete
  }

  /** The platform's work in this phase succeeded. */
  predicate WorkedBy(call: Call, during: DeviceState) {
    call.Progresses? && exists p: Percent :: p >= 100 && Gives(call.ops, during, 0, p)
  }

  lemma CommandActs(opcode: byte, s: Fd, payload: seq<byte>, ops: Platform)
    ensures var a := Command(opcode, s, payload, ops).act;
      && !a.TimedOut? && !a.Work? && !a.Answered?
      && (a.Store? ==> opcode == 0x14) && (a == ActivateAll ==> opcode == 0x1A) && (a.CancelAll? ==> opcode == 0x1D)
  {
    hide ParseRequest, Le64, ComponentOf;
  }

  lemma ProgressActs(s: Fd, payload: seq<byte>, ops: Platform)
    requires Inv(s)
    ensures var a := Progress(s, payload, ops).act;
      !a.Answered? && !a.Store? && !a.ActivateAll? && !a.CancelAll?
  {
    hide HistoryFits, DownloadChunk, MaySend, Le32;
  }

  lemma ResponseActs(s: Fd, payload: seq<byte>, ops: Platform)
    requires Inv(s)
    ensures HandleResponse(s, payload, ops).1.Skip? || HandleResponse(s, payload, ops).1.Answered?
  {
    hide FirmwareData, CompleteAnswer, Inv;
  }

  /** Which calls take which actions. */
  lemma KindOfAct(s: Fd, call: Call)
    requires Inv(s)
    ensures var a := ActOf(s, call);
      && (a.Store? ==> call.Asks? && call.opcode == 0x14)
      && (a == ActivateAll ==> call.Asks? && call.opcode == 0x1A)
      && (a.CancelAll? ==> call.Asks? && call.opcode == 0x1D)
      && (a.Work? || a.TimedOut? ==> call.Progresses?)
      && (a.Answered? ==> call.Responds?)
  {
    hide Inv, Command, Progress, HandleResponse;
    match call
    case Asks(opcode, payload, ops) => CommandActs(opcode, s, payload, ops);
    case Progresses(payload, ops) => ProgressActs(s, payload, ops);
    case Responds(payload, ops) => ResponseActs(s, payload, ops);
  }

  lemma OnlyGrantsAccept(s: Fd, call: Call, c: Component, flags: u32)
    requires Inv(s) && Accepts(ActOf(s, call), c, flags)
    ensures AcceptedBy(call, c)
  {
    hide ParseRequest, ComponentOf, ComponentWire, Describable, Inv, Progress, HandleResponse;
    KindOfAct(s, call);
    RequestDecodesIff(call.payload, 22);
    if Readable(call.payload, 22) { ComponentIsAsReceived(call.payload); }
  }

  lemma OnlyDataDownloads(s: Fd, call: Call, c: Component)
    requires Inv(s) && Downloads(ActOf(s, call), c)
    ensures DownloadedBy(call)
  {
    hide Inv, Command, Progress;
    KindOfAct(s, call);
  }

  lemma OnlySuccessCompletes(s: Fd, call: Call, during: DeviceState, c: Component)
    requires Inv(s) && during in {Verify, Apply} && Completes(ActOf(s, call), during, c)
    ensures WorkedBy(call, during)
  {
    hide HistoryFits, ReqMatches, Command, ProgressDownload, HandleResponse;
    KindOfAct(s, call);
    ActIsEnabled(s, call);
    assert Gives(call.ops, during, 0, ActOf(s, call).call.value.1);
  }

  /** In every run of calls a component finishes only after the platform has judged that exactly
      this component can be updated, has taken the last of its data, and has verified it and
      applied it with success. */
  lemma FinishedMeansAnswered(s: Fd, acts: seq<Action>, calls: seq<Call>, n: nat) returns (at: seq<nat>)
    requires IsInitial(s) && Serves(s, acts, calls) && n < |acts|
    requires After(s, acts[..n]).state == Apply && After(s, acts[..n + 1]).state == ReadyXfer && acts[n].Answered?
    ensures |calls| == |acts| && |at| == 4 && at[0] < at[1] < at[2] < at[3] < n
    ensures AcceptedBy(calls[at[0]], After(s, acts[..n]).comp)
    ensures DownloadedBy(calls[at[1]])
    ensures WorkedBy(calls[at[2]], Verify)
    ensures WorkedBy(calls[at[3]], Apply)
  {
    hide ActOf, Inv, After, Perform, Serves, AcceptedBy, DownloadedBy, WorkedBy;
    ServedIsLegal(s, acts, calls);
    at := FinishedMeansDone(s, acts, n);
    ServedAt(s, acts, calls, at[0]);
    ServedAt(s, acts, calls, at[1]);
    ServedAt(s, acts, calls, at[2]);
    ServedAt(s, acts, calls, at[3]);
    var c := After(s, acts[..n]).comp;
    OnlyGrantsAccept(After(s, acts[..at[0]]), calls[at[0]], c, After(s, acts[..n]).flags);
    OnlyDataDownloads(After(s, acts[..at[1]]), calls[at[1]], c);
    OnlySuccessCompletes(After(s, acts[..at[2]]), calls[at[2]], Verify, c);
    OnlySuccessCompletes(After(s, acts[..at[3]]), calls[at[3]], Apply, c);
  }

  // ---- Failed work ----

  lemma CallKeepsInv(s: Fd, call: Call)
    requires Inv(s)
    ensures Inv(Perform(s, ActOf(s, call)))
  {
    hide Inv, Enabled, Perform, ActOf;
    ActIsEnabled(s, call);
    StepKeepsInv(s, ActOf(s, call));
  }

  /** A failed verification or application is reported as such, and no run without a cancel or a
      timeout leaves the phase after it. */
  lemma FailedWorkStays(s: Fd, payload: seq<byte>, ops: Platform, code: byte, percent: Percent, acts: seq<Action>)
    requires Inv(s) && s.state in {Verify, Apply} && s.req.state == Ready
    requires Gives(ops, s.state, code, percent) && code != 0 && |payload| >= RequestLength(s)
    requires Legal(Leaves(s, Progress(s, payload, ops)), acts) && forall i :: 0 <= i < |acts| ==> !Ends(acts[i])
    ensures var o := Progress(s, payload, ops);
      && o.result == Ok(RequestLength(s)) && |o.payload| == |payload| && o.payload[3] == code
      && Leaves(s, o).req.result == Some(code)
      && After(Leaves(s, o), acts).state == s.state
  {
    hide After, Legal, Inv, Enabled, Progress;
    var o := Progress(s, payload, ops);
    ProgressSendsIff(s, payload, ops);
    if s.state == Verify { VerifyCompleteSays(s, payload, ops); } else { ApplyCompleteSays(s, payload, ops); }
    CallKeepsInv(s, Progresses(payload, ops));
    SpoiledStays(Leaves(s, o), acts);
  }

  // ---- Failed transfers ----

  /** The update agent answers a RequestFirmwareData with an error other than the wish for a
      retry, or the platform rejects the data: in both cases the transfer has failed with `r`. */
  predicate EndsTransfer(s: Fd, response: seq<byte>, ops: Platform, r: byte) {
    && IsTaken(s, response) && |response| >= 4
    && if response[3] == 0 then
         && s.phase.DownloadPhase? && |response| >= 4 + s.phase.length as int
         && ops.downloadFwData.Returns? && ops.downloadFwData.value == r && r != 0
       else response[3] != 0x89 && r == 3
  }

  lemma FirstStep(s: Fd, acts: seq<Action>)
    requires acts != []
    ensures After(s, acts[..1]) == Perform(s, acts[0])
  {
    assert acts[..1][..0] == [];
  }

  lemma TransferSettles(s: Fd, response: seq<byte>, ops: Platform, r: byte)
    requires Inv(s) && AwaitsData(s) && EndsTransfer(s, response, ops, r)
    ensures s.state == Download && r != 0 && HandleResponse(s, response, ops).0 == Ok(())
    ensures var t := Perform(s, HandleResponse(s, response, ops).1);
      t == s.(t1Stamp := ops.clock.check, req := Req(Ready, true, Some(r), None, None, None))
  {
    hide Perform, HandleResponse, Inv;
    FirmwareDataMeans(s, response, ops);
  }

  lemma FailedReportGoesOut(u: Fd, r: byte, buffer: seq<byte>, ops: Platform)
    requires Inv(u) && u.state == Download && u.req == Req(Ready, true, Some(r), None, None, None) && |buffer| >= 4
    ensures var o := Progress(u, buffer, ops);
      && o.result == Ok(4) && o.payload == [0x81, 0x05, 0x16, r] + buffer[4..]
      && Leaves(u, o) == u.(req := Req(Sent, true, Some(r), Some(1), Some(0x16), Some(ops.clock.sent)))
  {
    hide Inv, Progress, Perform;
    ProgressSendsIff(u, buffer, ops);
    TransferCompleteSays(u, buffer, ops);
  }

  /** The update agent's answer to the first request after such a failure. */
  predicate AnswersReport(answer: seq<byte>) { |answer| >= 3 && answer[0] % 0x20 == 1 && answer[2] == 0x16 }

  lemma FailedReportFails(v: Fd, r: byte, answer: seq<byte>, ops: Platform)
    requires Inv(v) && v.state == Download && v.req.state == Sent && v.req.complete && v.req.result == Some(r) && r != 0
    requires v.req.instanceId == Some(1) && v.req.command == Some(0x16) && AnswersReport(answer)
    ensures Perform(v, HandleResponse(v, answer, ops).1)
      == v.(t1Stamp := ops.clock.check, req := Req(Failed, true, Some(r), None, None, None))
  {
    hide Inv, HandleResponse, Perform;
    ReportAnswerMeans(v, answer, ops);
  }

  /** A failed transfer is reported with its code by the next progress call, and the answer to
      that report leaves the request failed in Download, where only a cancel gets it out. */
  lemma TransferFails(s: Fd, response: seq<byte>, ops: Platform, r: byte, buffer: seq<byte>, working: Platform,
                      answer: seq<byte>, later: Platform) returns (acts: seq<Action>)
    requires Inv(s) && AwaitsData(s) && EndsTransfer(s, response, ops, r)
    requires |buffer| >= 4 && AnswersReport(answer)
    ensures Serves(s, acts, [Responds(response, ops), Progresses(buffer, working), Responds(answer, later)])
    ensures |acts| == 3 && Inv(After(s, acts[..1]))
    ensures var o := Progress(After(s, acts[..1]), buffer, working);
      o.result == Ok(4) && o.payload == [0x81, 0x05, 0x16, r] + buffer[4..]
    ensures Inv(After(s, acts))
    ensures After(s, acts) == s.(t1Stamp := later.clock.check, req := Req(Failed, true, Some(r), None, None, None))
  {
    hide Inv, Progress, HandleResponse, Perform, After, Serves, EndsTransfer, AwaitsData, AnswersReport;
    var response', report, answer' := Responds(response, ops), Progresses(buffer, working), Responds(answer, later);
    TransferSettles(s, response, ops, r);
    ServesPair(s, response', report);
    var u := Perform(s, ActOf(s, response'));
    FailedReportGoesOut(u, r, buffer, working);
    acts := [ActOf(s, response'), ActOf(u, report)];
    ServesOneMore(s, acts, [response', report], answer');
    FailedReportFails(After(s, acts), r, answer, later);
    acts := acts + [ActOf(After(s, acts), answer')];
    assert [response', report] + [answer'] == [response', report, answer'];
    FirstStep(s, acts);
  }

  // ---- What GetStatus tells afterwards ----

  /** The three calls that take the device to Idle, with the reason code of each. */
  function ReasonOf(s: Fd, end: Call): byte {
    match end
    case Asks(opcode, _, _) => if opcode == 0x1A then 1 else 2
    case _ => if s.state == Download then 5 else if s.state == Verify then 6 else 7
  }

  lemma ActionsThatEnd(s: Fd, a: Action)
    requires Inv(s) && s.state != Idle && Enabled(s, a) && Perform(s, a).state == Idle
    ensures match a
            case ActivateAll => Perform(s, a).prev == Activate && ReasonCode(Perform(s, a).reason) == 1
            case CancelAll(_) => Perform(s, a).prev == s.state && ReasonCode(Perform(s, a).reason) == 2
            case TimedOut(_) =>
              && Perform(s, a).prev == s.state && InPhase(s)
              && ReasonCode(Perform(s, a).reason)
                   == if s.state == Download then 5 else if s.state == Verify then 6 else 7
            case _ => false
  {
  }

  lemma EndOfUpdate(s: Fd, end: Call)
    requires Inv(s) && s.state != Idle && Perform(s, ActOf(s, end)).state == Idle
    ensures var t := Perform(s, ActOf(s, end));
      && ReasonCode(t.reason) == ReasonOf(s, end)
      && t.prev == if end.Asks? && end.opcode == 0x1A then Activate else s.state
  {
    hide Perform, ActOf, Inv, Enabled;
    ActIsEnabled(s, end);
    ActionsThatEnd(s, ActOf(s, end));
    KindOfAct(s, end);
  }

  /** Whichever call has ended an update, GetStatus then tells what ended it and where. */
  lemma StatusTellsTheEnd(s: Fd, end: Call, payload: seq<byte>, ops: Platform)
    requires Inv(s) && s.state != Idle && Perform(s, ActOf(s, end)).state == Idle && |payload| >= 14
    ensures var o := Command(0x1B, Perform(s, ActOf(s, end)), payload, ops);
      && o.result == Ok(14) && |o.payload| >= 14 && o.payload[4] == 0
      && o.payload[5] == (if end.Asks? && end.opcode == 0x1A then 6 else StateCode(s.state))
      && o.payload[9] == ReasonOf(s, end)
  {
    hide Perform, ActOf, Inv, Command;
    CallKeepsInv(s, end);
    EndOfUpdate(s, end);
    GetStatusAnswers(Perform(s, ActOf(s, end)), payload, ops);
  }

  /** A failed request in Download shows as failed, with the code that was reported. */
  lemma StatusTellsTheFailure(s: Fd, r: byte, payload: seq<byte>, ops: Platform)
    requires Inv(s) && s.state == Download && s.req.state == Failed && s.req.result == Some(r) && |payload| >= 14
    ensures var o := Command(0x1B, s, payload, ops);
      o.result == Ok(14) && |o.payload| >= 14 && o.payload[4] == 3 && o.payload[6] == 2 && o.payload[7] == r && r != 0
  {
    hide Command;
    GetStatusAnswers(s, payload, ops);
  }
}
