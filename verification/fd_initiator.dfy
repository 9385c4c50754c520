// The requests the device sends of its own accord: when they go out, what they say, and what
// the answers of the update agent make of the state.
module FdInitiator {
  import opened Bytes
  import opened Base
  import opened FdState
  import opened FdInvariant
  import opened FdHandlers
  import opened FdHandlerLaws
  import opened FdOutcomes
  import opened FdRuns
  import opened FdRepeats

  // ---- The platform's side ----

  /** The platform's verify or apply came back with this code and percentage. */
  predicate Gives(ops: Platform, during: DeviceState, code: byte, percent: Percent) {
    match during
    case Verify => ops.verify.Returns? && ops.verify.value.0 == code && ops.verify.value.1 == percent
    case Apply => ops.apply.Returns? && ops.apply.value.0 == code && ops.apply.value.1 == percent
    case _ => false
  }

  /** There is something to report: work that is done, or that has failed. */
  predicate HasResult(ops: Platform, during: DeviceState) {
    match during
    case Verify => ops.verify.Returns? && (ops.verify.value.0 == 0 ==> ops.verify.value.1 >= 100)
    case Apply => ops.apply.Returns? && (ops.apply.value.0 == 0 ==> ops.apply.value.1 >= 100)
    case _ => false
  }

  /** The range that the platform names lies inside the image and its padding, in sums that wrap. */
  predicate Wants(s: Fd, ops: Platform) {
    && ops.downloadOffsetAndLength.Returns?
    && var (offset, length) := ops.downloadOffsetAndLength.value;
       && offset % U32_MODULUS <= ImageSize(s)
       && (offset + length) % U32_MODULUS <= (ImageSize(s) + 32) % U32_MODULUS
  }

  // ---- When a request goes out ----

  /** T1 has passed since the last sign of the update agent. */
  predicate Late(s: Fd, now: nat) { now > s.t1Stamp + s.t1Timeout }

  /** A new request is due, or a repetition: T2 has passed and T1 has not. */
  predicate Due(s: Fd, at: Clock) {
    || s.req.state == Ready
    || (s.req.state == Sent && s.req.sentTime.Some? && !Late(s, at.check)
        && at.gate >= s.req.sentTime.value + s.t2Retry)
  }

  /** How long the request is that goes out next. */
  function RequestLength(s: Fd): nat {
    if s.state == Apply then 6 else if s.state == Download && !s.req.complete then 11 else 4
  }

  lemma WantedSum(o: nat, l: nat)
    ensures (o % U32_MODULUS + l % U32_MODULUS) % U32_MODULUS == (o + l) % U32_MODULUS
  {
  }

  lemma WantsIff(s: Fd, ops: Platform)
    requires s.state == Download
    ensures match ops.downloadOffsetAndLength
            case Fails(_) => !Wants(s, ops)
            case Returns((o, l)) => DownloadChunk(s, o % U32_MODULUS, l % U32_MODULUS).Some? <==> Wants(s, ops)
  {
    if ops.downloadOffsetAndLength.Returns? {
      WantedSum(ops.downloadOffsetAndLength.value.0, ops.downloadOffsetAndLength.value.1);
    }
  }

  /** Progress sends a request exactly when one is due, the buffer can hold it, and the platform
      has something for it: a range to fetch, or a result to report. */
  lemma ProgressSendsIff(s: Fd, payload: seq<byte>, ops: Platform)
    requires Inv(s)
    ensures OnWire(Progress(s, payload, ops).act)
       <==> && InPhase(s) && Due(s, ops.clock) && |payload| >= RequestLength(s)
            && (s.req.complete || (if s.state == Download then Wants(s, ops) else HasResult(ops, s.state)))
  {
    hide DownloadChunk, Wants;
    if s.state == Download { WantsIff(s, ops); }
  }

  // ---- What goes out ----

  /** The id a request goes out under. */
  function IdAfter(id: Option<byte>): byte { if id.None? then 1 else if id.value >= 31 then 0 else id.value + 1 }

  /** A request with this body is in the buffer, and recorded as sent under the next id. */
  predicate Sends(s: Fd, o: Outcome, payload: seq<byte>, ops: Platform, command: byte, body: seq<byte>,
                  result: Option<byte>)
    requires |payload| >= 3 + |body|
  {
    var id := IdAfter(s.req.instanceId);
    && o.result == Ok(3 + |body|)
    && o.payload == [(0x80 + id as int) % 0x100, 0x05, command] + body + payload[3 + |body|..]
    && Leaves(s, o) == s.(phase := Leaves(s, o).phase,
                          req := Req(Sent, command != 0x15, result, Some(id), Some(command), Some(ops.clock.sent)))
  }

  /** RequestFirmwareData asks for the platform's range, cut to the transfer size, and the phase
      record remembers it. */
  lemma FetchSays(s: Fd, payload: seq<byte>, ops: Platform)
    requires Inv(s) && OnWire(Progress(s, payload, ops).act) && s.state == Download && !s.req.complete
    ensures var o := Progress(s, payload, ops);
      && ops.downloadOffsetAndLength.Returns? && |payload| >= 11
      && var offset: u32 := ops.downloadOffsetAndLength.value.0 % U32_MODULUS;
         var length: u32 := ops.downloadOffsetAndLength.value.1 % U32_MODULUS;
         var n := if length < s.maxXfer then length else s.maxXfer;
         && Sends(s, o, payload, ops, 0x15, Le32(offset) + Le32(n), None)
         && Leaves(s, o).phase == DownloadPhase(offset, n)
  {
    hide Le32;
  }

  /** TransferComplete tells the recorded result and keeps it. */
  lemma TransferCompleteSays(s: Fd, payload: seq<byte>, ops: Platform)
    requires Inv(s) && OnWire(Progress(s, payload, ops).act) && s.state == Download && s.req.complete
    ensures var o := Progress(s, payload, ops);
      && s.req.result.Some? && |payload| >= 4 && Leaves(s, o).phase == s.phase
      && Sends(s, o, payload, ops, 0x16, [s.req.result.value], s.req.result)
  {
  }

  /** The first VerifyComplete tells and records the code that the platform's verification came
      back with; a repetition says generic error instead. */
  lemma VerifyCompleteSays(s: Fd, payload: seq<byte>, ops: Platform)
    requires Inv(s) && OnWire(Progress(s, payload, ops).act) && s.state == Verify
    ensures var o := Progress(s, payload, ops);
      && |payload| >= 4
      && (s.req.state == Ready ==> ops.verify.Returns?)
      && var code := if s.req.state == Ready then ops.verify.value.0 else 0x0a;
         && Sends(s, o, payload, ops, 0x17, [code], Some(code))
         && Leaves(s, o).phase == if s.req.state == Ready then VerifyPhase(ops.verify.value.1) else s.phase
  {
  }

  /** ApplyComplete likewise, with no change of activation methods. */
  lemma ApplyCompleteSays(s: Fd, payload: seq<byte>, ops: Platform)
    requires Inv(s) && OnWire(Progress(s, payload, ops).act) && s.state == Apply
    ensures var o := Progress(s, payload, ops);
      && |payload| >= 6
      && (s.req.state == Ready ==> ops.apply.Returns?)
      && var code := if s.req.state == Ready then ops.apply.value.0 else 0x0a;
         && Sends(s, o, payload, ops, 0x18, [code, 0, 0], Some(code))
         && Leaves(s, o).phase == if s.req.state == Ready then ApplyPhase(ops.apply.value.1) else s.phase
  {
  }

  // ---- When nothing goes out ----

  /** An update ends by timeout exactly when its request has gone unanswered for more than T1 and
      the platform's cancel callback succeeds. */
  lemma TimesOutIff(s: Fd, payload: seq<byte>, ops: Platform)
    requires Inv(s)
    ensures var o := Progress(s, payload, ops);
      var late := InPhase(s) && s.req.state == Sent && Late(s, ops.clock.check);
      && (Leaves(s, o).state != s.state <==> late && ops.cancelUpdateComponent.Returns?)
      && (late && ops.cancelUpdateComponent.Returns? ==>
            && o.result == Err(T1Timeout) && o.payload == payload
            && Leaves(s, o) == s.(state := Idle, prev := s.state, req := Req(Unused, false, None, None, None, None),
                                  reason := Some(match s.state
                                                 case Download => DownloadTimeout
                                                 case Verify => VerifyTimeout
                                                 case _ => ApplyTimeout)))
      && (late && ops.cancelUpdateComponent.Fails? ==>
            Breaks(o, payload, ops.cancelUpdateComponent.error) && Leaves(s, o) == s)
  {
    hide ProgressDownload, ProgressWork, HistoryFits, ReqMatches;
    if !(s.req.state == Sent && Late(s, ops.clock.check)) { ProgressOnTimeKeepsPhase(s, payload, ops); }
  }

  /** Nothing is due: an error and no change. */
  lemma NothingDue(s: Fd, payload: seq<byte>, ops: Platform)
    requires Inv(s) && (InPhase(s) ==> !Due(s, ops.clock) && !(s.req.state == Sent && Late(s, ops.clock.check)))
    ensures var o := Progress(s, payload, ops);
      o.result == Err(FdInitiatorModeError) && o.payload == payload && Leaves(s, o) == s
  {
  }

  /** A request that is due but does not go out costs an instance id and nothing else, unless the
      platform's work was called first. */
  lemma UnsentCostsAnId(s: Fd, payload: seq<byte>, ops: Platform)
    requires Inv(s) && InPhase(s) && Due(s, ops.clock) && !OnWire(Progress(s, payload, ops).act)
    requires s.state == Download || s.req.complete
    ensures var o := Progress(s, payload, ops);
      && o.result.Err? && o.payload == payload
      && Leaves(s, o) == s.(req := s.req.(instanceId := Some(IdAfter(s.req.instanceId))))
      && (s.req.complete || Wants(s, ops) ==> o.result == Err(Codec(BufferTooShort)))
      && (!s.req.complete && ops.downloadOffsetAndLength.Fails? ==>
            o.result == Err(FdOps(ops.downloadOffsetAndLength.error)))
      && (!s.req.complete && ops.downloadOffsetAndLength.Returns? && !Wants(s, ops) ==>
            o.result == Err(FdInitiatorModeError))
  {
    hide DownloadChunk, Wants;
    if s.state == Download { WantsIff(s, ops); }
  }

  /** Work that goes on refreshes T1 and records the percentage; an error of the platform changes
      nothing; and a finished result that does not fit costs an id and will be asked for again. */
  lemma WorkUnsent(s: Fd, payload: seq<byte>, ops: Platform, code: byte, percent: Percent)
    requires Inv(s) && s.state in {Verify, Apply} && s.req.state == Ready && Gives(ops, s.state, code, percent)
    ensures var o := Progress(s, payload, ops);
      var told := s.(phase := if s.state == Verify then VerifyPhase(percent) else ApplyPhase(percent));
      && (code == 0 && percent < 100 ==>
            o.result == Ok(0) && o.payload == payload && Leaves(s, o) == told.(t1Stamp := ops.clock.refresh))
      && ((code != 0 || percent >= 100) && |payload| < RequestLength(s) ==>
            && o.result == Err(Codec(BufferTooShort)) && o.payload == payload
            && Leaves(s, o) == told.(req := s.req.(instanceId := Some(IdAfter(s.req.instanceId)))))
  {
  }

  lemma WorkBreaks(s: Fd, payload: seq<byte>, ops: Platform, e: FdOpsError)
    requires Inv(s) && s.state in {Verify, Apply} && s.req.state == Ready
    requires if s.state == Verify then ops.verify == Fails(e) else ops.apply == Fails(e)
    ensures var o := Progress(s, payload, ops); Breaks(o, payload, e) && Leaves(s, o) == s
  {
  }

  // ---- What the answers do ----

  /** The response answers the outstanding request: its id and its command are the ones sent. */
  predicate IsTaken(s: Fd, payload: seq<byte>) {
    && |payload| >= 3 && s.req.state == Sent
    && s.req.instanceId == Some(payload[0] % 0x20) && s.req.command == Some(payload[2])
  }

  /** A response is taken exactly when it answers the outstanding request. One that is not taken
      is an error and changes nothing. */
  lemma ResponseIsTakenIff(s: Fd, payload: seq<byte>, ops: Platform)
    requires Inv(s)
    ensures var (result, act) := HandleResponse(s, payload, ops);
      && (act.Answered? <==> IsTaken(s, payload))
      && (!IsTaken(s, payload) ==>
            && Perform(s, act) == s
            && result == Err(if |payload| < 3 then Codec(BufferTooShort) else FdInitiatorModeError))
  {
  }

  /** The answer to a RequestFirmwareData, code by code: the update agent's error ends the
      transfer as aborted, its wish for a retry refreshes T1, and the data that was asked for
      goes to the platform, whose result settles the request. */
  lemma FirmwareDataMeans(s: Fd, payload: seq<byte>, ops: Platform)
    requires Inv(s) && AwaitsData(s) && IsTaken(s, payload)
    ensures var (result, act) := HandleResponse(s, payload, ops);
      var t, touched := Perform(s, act), s.(t1Stamp := ops.clock.check);
      if |payload| < 4 then t == touched && result == Err(Codec(BufferTooShort))
      else if payload[3] == 0x89 then t == touched && result == Ok(())
      else if payload[3] != 0 then
        t == touched.(req := Req(Ready, true, Some(3), None, None, None)) && result == Ok(())
      else
        var end := 4 + s.phase.length as int;
        if |payload| < end then t == touched && result == Err(Codec(BufferTooShort))
        else
          && act.answer == Data(s.comp, s.phase.offset, payload[4..end], ops.downloadFwData, ops.isDownloadComplete)
          && match ops.downloadFwData
             case Fails(e) => t == touched && result == Err(FdOps(e))
             case Returns(r) =>
               && result == Ok(())
               && t == touched.(req := if r == 0 && !ops.isDownloadComplete
                                       then Req(Ready, false, None, None, None, None)
                                       else Req(Ready, true, Some(r), None, None, None))
  {
  }

  /** The answer to a completion report, whatever it says: a success moves the device on, any
      other result leaves the request failed with that result. */
  lemma ReportAnswerMeans(s: Fd, payload: seq<byte>, ops: Platform)
    requires Inv(s) && InPhase(s) && s.req.complete && IsTaken(s, payload)
    ensures var (result, act) := HandleResponse(s, payload, ops);
      var t, touched := Perform(s, act), s.(t1Stamp := ops.clock.check);
      && result == Ok(())
      && t == if s.req.result != Some(0) then touched.(req := Req(Failed, true, s.req.result, None, None, None))
              else
                match s.state
                case Download => touched.(state := Verify, prev := Download, phase := VerifyPhase(0),
                                          req := Req(Ready, false, None, None, None, None))
                case Verify => touched.(state := Apply, prev := Verify, phase := ApplyPhase(0),
                                        req := Req(Ready, false, None, None, None, None))
                case _ => touched.(state := ReadyXfer, prev := Apply,
                                   req := Req(Unused, false, None, None, None, None))
  {
  }

  /** Outside the phases a response that is taken is an error, and refreshes T1. */
  lemma LateResponseMeans(s: Fd, payload: seq<byte>, ops: Platform)
    requires Inv(s) && !InPhase(s) && IsTaken(s, payload)
    ensures var (result, act) := HandleResponse(s, payload, ops);
      result == Err(FdInitiatorModeError) && Perform(s, act) == s.(t1Stamp := ops.clock.check)
  {
  }
}
