// What each command achieves: from the bytes of the request and the answers of the platform
// to the bytes of the reply and the whole state afterwards. Conditions and codes are spelled
// out, so that they do not rest on the predicates and constants the handlers use.
module FdOutcomes {
  import opened Bytes
  import opened Base
  import opened FirmwareStrings
  import opened UpdateMessages
  import opened FdState
  import opened FdInvariant
  import opened FdHandlers
  import F = FirmwareParameters
  import D = Descriptors
  import DeviceIds
  import FirmwareParametersLaws

  /** The state a handler leaves behind. */
  function Leaves(s: Fd, o: Outcome): Fd { Perform(s, o.act) }

  // ---- What a requester sees ----

  /** A four-byte refusal, or an untouched payload where not even that fits. */
  predicate Refuses(o: Outcome, payload: seq<byte>, code: byte) {
    if |payload| < 4 then o.result == Err(Codec(BufferTooShort)) && o.payload == payload
    else o.result == Ok(4) && o.payload == [payload[0] % 0x80, payload[1], payload[2], code] + payload[4..]
  }

  /** A response with this body, or a refusal where it does not fit. */
  predicate Replies(o: Outcome, payload: seq<byte>, command: byte, body: seq<byte>) {
    if |payload| < 3 + |body| then Refuses(o, payload, 0x03)
    else
      && o.result == Ok(3 + |body|)
      && o.payload == [payload[0] % 0x20, 0x05, command] + body + payload[3 + |body|..]
  }

  /** The platform's error is passed on and no reply goes out. */
  predicate Breaks(o: Outcome, payload: seq<byte>, e: FdOpsError) {
    o.result == Err(FdOps(e)) && o.payload == payload
  }

  lemma FailRefuses(payload: seq<byte>)
    ensures forall code, act {:trigger Fail(payload, code, act)} ::
      Refuses(Fail(payload, code, act), payload, code) && Fail(payload, code, act).act == act
  {
  }

  lemma ReplyReplies(payload: seq<byte>)
    requires |payload| >= HEADER_LEN
    ensures forall command, body, done, unsent {:trigger Reply(payload, command, body, done, unsent)} ::
      var o := Reply(payload, command, body, done, unsent);
      Replies(o, payload, command, body) && o.act == if |payload| < 3 + |body| then unsent else done
  {
  }

  // ---- RequestUpdate ----

  /** The refusal of a request that does not decode. */
  function UnreadableCode(payload: seq<byte>, fixedLen: nat): byte
    requires fixedLen >= 2
  {
    if |payload| >= fixedLen && payload[fixedLen - 1] > 32 then 0x02 else 0x03
  }

  /** The device enters update mode exactly when it is idle, the request can be read, the agent
      takes at least 32 bytes a transfer and the platform names a transfer size, which then is
      in force, cut to 32 bits. */
  lemma RequestUpdateMeans(s: Fd, payload: seq<byte>, ops: Platform)
    ensures var t, now := Leaves(s, Command(0x10, s, payload, ops)), ops.clock.check;
      var granted := s.state == Idle && Readable(payload, 14) && FromLe32(payload[3..]) as int >= 32
                     && ops.xferSize.Returns?;
      && (t.state != s.state <==> granted)
      && t == (if granted then s.(state := LearnComponents, prev := Idle,
                                  maxXfer := ops.xferSize.value % U32_MODULUS, t1Stamp := now)
               else if s.state == Idle then s.(t1Stamp := now)
               else s)
  {
    hide Reply, Fail, Refuses;
    RequestDecodesIff(payload, 14);
    FailRefuses(payload);
    if Readable(payload, 14) {
      ReplyReplies(payload);
      ReadsOnPrefix(payload[..14], payload, 3);
    }
  }

  lemma NothingAnnounced(o: Outcome, payload: seq<byte>)
    requires |payload| >= 7 && Replies(o, payload, 0x10, [0, 0, 0, 0])
    ensures ParseRequestUpdateResponse(o.payload)
      == Ok(RequestUpdateResponse([payload[0] % 0x20, 0x05, 0x10], 0, 0, 0, None))
  {
    assert o.payload[..3] == [payload[0] % 0x20, 0x05, 0x10];
  }

  /** A granted request is answered with Success, no metadata and no package data. */
  lemma RequestUpdateAnswers(s: Fd, payload: seq<byte>, ops: Platform)
    ensures var o := Command(0x10, s, payload, ops);
      if s.state != Idle then Refuses(o, payload, 0x81)
      else if !Readable(payload, 14) then Refuses(o, payload, UnreadableCode(payload, 14))
      else if FromLe32(payload[3..]) as int < 32 then Refuses(o, payload, 0x83)
      else if ops.xferSize.Fails? then Breaks(o, payload, ops.xferSize.error)
      else
        && o.result == Ok(7)
        && ParseRequestUpdateResponse(o.payload)
             == Ok(RequestUpdateResponse([payload[0] % 0x20, 0x05, 0x10], 0, 0, 0, None))
  {
    hide Reply, Fail, Refuses, ParseRequestUpdateResponse;
    RequestDecodesIff(payload, 14);
    FailRefuses(payload);
    if Readable(payload, 14) {
      ReplyReplies(payload);
      ReadsOnPrefix(payload[..14], payload, 3);
      assert [SUCCESS] + Le16(0) + [0] == [0, 0, 0, 0];
      if ops.xferSize.Returns? && s.state == Idle && FromLe32(payload[3..]) as int >= 32 {
        NothingAnnounced(Command(0x10, s, payload, ops), payload);
      }
    }
  }

  // ---- PassComponentTable ----

  /** The platform was asked about a component of the table, or would be. */
  predicate CanPass(s: Fd, payload: seq<byte>) {
    s.state == LearnComponents && Readable(payload, 15) && payload[3] in {1, 2, 4, 5}
  }

  predicate Judged(ops: Platform) { ops.firmwareParams.Returns? && ops.handleComponent.Returns? }

  /** The component table ends exactly with a component that is flagged as the last or the only
      one and that the platform has judged, whatever the judgement. */
  lemma PassComponentMeans(s: Fd, payload: seq<byte>, ops: Platform)
    ensures var t, now := Leaves(s, Command(0x13, s, payload, ops)), ops.clock.check;
      var last := CanPass(s, payload) && payload[3] in {4, 5} && Judged(ops);
      && (t.state != s.state <==> last)
      && t == (if last then s.(state := ReadyXfer, prev := LearnComponents, t1Stamp := now)
               else if s.state == LearnComponents then s.(t1Stamp := now)
               else s)
  {
    hide Reply, Fail;
    RequestDecodesIff(payload, 15);
    FailRefuses(payload);
    if Readable(payload, 15) { ReplyReplies(payload); }
  }

  /** The reply carries the platform's judgement. */
  lemma PassComponentAnswers(s: Fd, payload: seq<byte>, ops: Platform)
    ensures var o := Command(0x13, s, payload, ops);
      if s.state != LearnComponents then Refuses(o, payload, 0x84)
      else if !Readable(payload, 15) then Refuses(o, payload, UnreadableCode(payload, 15))
      else if !CanPass(s, payload) then Refuses(o, payload, 0x02)
      else if ops.firmwareParams.Fails? then Breaks(o, payload, ops.firmwareParams.error)
      else if ops.handleComponent.Fails? then Breaks(o, payload, ops.handleComponent.error)
      else
        var code := ops.handleComponent.value;
        Replies(o, payload, 0x13, [0, if code == 0 then 0 else 1, code])
  {
    hide Reply, Fail, Refuses, Replies;
    RequestDecodesIff(payload, 15);
    FailRefuses(payload);
    if Readable(payload, 15) { ReplyReplies(payload); }
  }

  // ---- UpdateComponent ----

  /** Components that an UpdateComponent request can describe. */
  predicate Describable(c: Component) {
    c.imageSize.Some? && c.optionFlags.Some? && F.StringWellFormed(c.version.strLen, c.version.strData)
  }

  function ComponentFixed(c: Component): (b: seq<byte>)
    requires Describable(c)
    ensures |b| == 19
  {
    Le16(c.classification) + (Le16(c.identifier) + ([c.classificationIndex] + (Le32(c.stamp) +
    (Le32(c.imageSize.value) + (Le32(c.optionFlags.value) + [c.version.strType, c.version.strLen])))))
  }

  /** An UpdateComponent request behind its header, as an agent sends it. */
  function ComponentWire(c: Component): seq<byte>
    requires Describable(c)
  {
    ComponentFixed(c) + c.version.strData[..c.version.strLen]
  }

  lemma FixedPieces(f: seq<byte>)
    requires |f| == 22
    ensures f[3..] == f[3..][..2] + (f[5..][..2] + ([f[7]] + (f[8..][..4] + (f[12..][..4] + (f[16..][..4] +
                      [f[20], f[21]])))))
  {
  }

  lemma FixedAsReceived(f: seq<byte>, c: Component)
    requires |f| == 22 && Describable(c)
    requires c.classification == FromLe16(f[3..]) && c.identifier == FromLe16(f[5..]) && c.classificationIndex == f[7]
    requires c.stamp == FromLe32(f[8..]) && c.imageSize == Some(FromLe32(f[12..]))
    requires c.optionFlags == Some(FromLe32(f[16..])) && c.version.strType == f[20] && c.version.strLen == f[21]
    ensures ComponentFixed(c) == f[3..]
  {
    hide Le16, Le32, FromLe16, FromLe32;
    WriteLe16(f[3..]);
    WriteLe16(f[5..]);
    WriteLe32(f[8..]);
    WriteLe32(f[12..]);
    WriteLe32(f[16..]);
    FixedPieces(f);
  }

  /** What is stored describes itself by the bytes that were received. */
  lemma ComponentIsAsReceived(payload: seq<byte>)
    requires Readable(payload, 22)
    ensures ParseRequest(payload, 22).Ok?
    ensures var c := ComponentOf(ParseRequest(payload, 22).value);
      Describable(c) && ComponentWire(c) <= payload[3..] && c.optionFlags == Some(FromLe32(payload[16..]))
  {
    hide FromLe16, FromLe32, ComponentFixed;
    RequestDecodesIff(payload, 22);
    var f := payload[..22];
    var c := ComponentOf(ParseRequest(payload, 22).value);
    FixedAsReceived(f, c);
    ReadsOnPrefix(f, payload, 16);
    assert c.version.strData[..c.version.strLen] == payload[22..][..f[21]];
    assert payload[3..] == f[3..] + payload[22..];
  }

  /** The fields of a component as they stand in the fixed part of a request. */
  lemma FieldsOfFixed(header: Header, c: Component, f: seq<byte>)
    requires Describable(c) && f == header + ComponentFixed(c)
    ensures FromLe16(f[3..]) == c.classification && FromLe16(f[5..]) == c.identifier
    ensures f[7] == c.classificationIndex && FromLe32(f[8..]) == c.stamp
    ensures Some(FromLe32(f[12..])) == c.imageSize && Some(FromLe32(f[16..])) == c.optionFlags
    ensures f[20] == c.version.strType && f[21] == c.version.strLen
  {
    hide Le16, Le32, FromLe16, FromLe32;
    ReadLe16(c.classification, f[5..]);
    ReadLe16(c.identifier, f[7..]);
    ReadLe32(c.stamp, f[12..]);
    ReadLe32(c.imageSize.value, f[16..]);
    ReadLe32(c.optionFlags.value, f[20..]);
    assert f[3..] == Le16(c.classification) + f[5..];
    assert f[5..] == Le16(c.identifier) + f[7..];
    assert f[8..] == Le32(c.stamp) + f[12..];
    assert f[12..] == Le32(c.imageSize.value) + f[16..];
    assert f[16..] == Le32(c.optionFlags.value) + f[20..];
  }

  /** And what an agent describes is what is stored. */
  lemma ComponentArrives(header: Header, c: Component, rest: seq<byte>)
    requires Describable(c)
    ensures var payload := header + (ComponentWire(c) + rest);
      Readable(payload, 22) && ParseRequest(payload, 22).Ok? && ComponentOf(ParseRequest(payload, 22).value) == c
  {
    hide ComponentFixed, FromLe16, FromLe32;
    var b := header + (ComponentWire(c) + rest);
    FieldsOfFixed(header, c, b[..22]);
    assert b[22..][..c.version.strLen] == c.version.strData[..c.version.strLen];
    RequestDecodesIff(b, 22);
  }

  /** A download starts exactly when the device waits for one, the request can be read, the
      platform tells its parameters and judges that the component can be updated. A component
      that can be read is stored in any case, as the bytes received describe it. */
  lemma UpdateComponentMeans(s: Fd, payload: seq<byte>, ops: Platform)
    ensures var t := Leaves(s, Command(0x14, s, payload, ops));
      var touched := if s.state == ReadyXfer then s.(t1Stamp := ops.clock.check) else s;
      var read := s.state == ReadyXfer && Readable(payload, 22);
      var stored := touched.(comp := t.comp, flags := t.flags);
      && (t.state != s.state <==> read && Judged(ops) && ops.handleComponent.value == 0)
      && (read ==> Describable(t.comp) && ComponentWire(t.comp) <= payload[3..] && Some(t.flags) == t.comp.optionFlags)
      && t == (if !read then touched
               else if t.state == s.state then stored
               else stored.(state := Download, prev := ReadyXfer, phase := DownloadPhase(0, 0), req := FreshReq(Ready)))
  {
    hide Reply, Fail, ParseRequest, ComponentOf, ComponentWire, Describable;
    RequestDecodesIff(payload, 22);
    FailRefuses(payload);
    if Readable(payload, 22) {
      ComponentIsAsReceived(payload);
      ReplyReplies(payload);
    }
  }

  lemma FlagsEcho(payload: seq<byte>)
    requires Readable(payload, 22)
    ensures Le32(FromLe32(payload[16..])) + Le16(0) == payload[16..20] + [0, 0]
  {
    WriteLe32(payload[16..]);
  }

  /** The reply carries the platform's judgement and repeats the option flags. */
  lemma UpdateComponentAnswers(s: Fd, payload: seq<byte>, ops: Platform)
    ensures var o := Command(0x14, s, payload, ops);
      if s.state != ReadyXfer then Refuses(o, payload, 0x84)
      else if !Readable(payload, 22) then Refuses(o, payload, UnreadableCode(payload, 22))
      else if ops.firmwareParams.Fails? then Breaks(o, payload, ops.firmwareParams.error)
      else if ops.handleComponent.Fails? then Breaks(o, payload, ops.handleComponent.error)
      else
        var code := ops.handleComponent.value;
        Replies(o, payload, 0x14, [0, if code == 0 then 0 else 1, code] + (payload[16..20] + [0, 0]))
  {
    hide Reply, Fail, Refuses, Replies, ParseRequest, ComponentOf, ComponentWire, Describable, Le16, Le32;
    RequestDecodesIff(payload, 22);
    FailRefuses(payload);
    if Readable(payload, 22) {
      ComponentIsAsReceived(payload);
      ReplyReplies(payload);
      FlagsEcho(payload);
    }
  }

  // ---- ActivateFirmware ----

  /** Activation takes effect exactly in ReadyXfer, with a flag of 0 or 1, a platform that answers
      Success or ActivationNotRequired, and room for the reply. The device is then idle, by way
      of Activate; in every other case nothing changes. */
  lemma ActivateFirmwareMeans(s: Fd, payload: seq<byte>, ops: Platform)
    ensures var t := Leaves(s, Command(0x1A, s, payload, ops));
      var activated := s.state == ReadyXfer && |payload| >= 6 && payload[3] in {0, 1}
                       && ops.activate.Returns? && ops.activate.value.0 in {0x00, 0x8B};
      && (t.state != s.state <==> activated)
      && t == if activated then s.(state := Idle, prev := Activate, reason := Some(Activated)) else s
  {
  }

  lemma TimeReadsBack(o: Outcome, payload: seq<byte>, command: byte, code: byte, time: u16)
    requires |payload| >= 6 && Replies(o, payload, command, [code] + Le16(time))
    ensures o.payload[3] == code && FromLe16(o.payload[4..]) == time
  {
    ReadLe16(time, payload[6..]);
    assert o.payload[4..] == Le16(time) + payload[6..];
  }

  /** The reply carries the platform's code and its time estimate. */
  lemma ActivateFirmwareAnswers(s: Fd, payload: seq<byte>, ops: Platform)
    ensures var o := Command(0x1A, s, payload, ops);
      if s.state != ReadyXfer then Refuses(o, payload, 0x84)
      else if |payload| < 4 then Refuses(o, payload, 0x03)
      else if payload[3] !in {0, 1} then Refuses(o, payload, 0x02)
      else if ops.activate.Fails? then Breaks(o, payload, ops.activate.error)
      else
        var (code, time) := ops.activate.value;
        && Replies(o, payload, 0x1A, [code] + Le16(time))
        && (|payload| >= 6 ==> |o.payload| >= 6 && o.payload[3] == code && FromLe16(o.payload[4..]) == time)
  {
    hide Fail, Refuses, Reply, Le16;
    FailRefuses(payload);
    if |payload| >= HEADER_LEN {
      ReplyReplies(payload);
      var o := Command(0x1A, s, payload, ops);
      if s.state == ReadyXfer && |payload| >= 6 && payload[3] in {0, 1} && ops.activate.Returns? {
        TimeReadsBack(o, payload, 0x1A, ops.activate.value.0, ops.activate.value.1);
      }
    }
  }

  // ---- Cancelling ----

  /** In one of the phases, and not just about to report a successful application. */
  predicate CanCancel(s: Fd) {
    s.state in {Download, Verify, Apply} && !(s.state == Apply && s.req.complete && s.req.result == Some(0))
  }

  /** CancelUpdateComponent goes back to ReadyXfer exactly where it may, when the platform agrees
      and the reply fits. Nothing else changes, least of all the request record. */
  lemma CancelUpdateComponentMeans(s: Fd, payload: seq<byte>, ops: Platform)
    ensures var t := Leaves(s, Command(0x1C, s, payload, ops));
      var cancelled := CanCancel(s) && ops.cancelUpdateComponent.Returns? && |payload| >= 4;
      && (t.state != s.state <==> cancelled)
      && t == if cancelled then s.(state := ReadyXfer, prev := s.state) else s
  {
  }

  /** The reply tells whether the component was cancelled. */
  lemma CancelUpdateComponentAnswers(s: Fd, payload: seq<byte>, ops: Platform)
    ensures var o := Command(0x1C, s, payload, ops);
      if s.state == Idle then Refuses(o, payload, 0x80)
      else if s.state !in {Download, Verify, Apply} then Refuses(o, payload, 0x84)
      else if CanCancel(s) && ops.cancelUpdateComponent.Fails? then
        Breaks(o, payload, ops.cancelUpdateComponent.error)
      else Replies(o, payload, 0x1C, [if CanCancel(s) then 0 else 1])
  {
    hide Fail, Refuses, Reply;
    FailRefuses(payload);
    if |payload| >= HEADER_LEN { ReplyReplies(payload); }
  }

  /** CancelUpdate goes to Idle exactly where it may, when the platform agrees, tells about its
      components, and the reply fits. Otherwise it refreshes T1 and nothing else. */
  lemma CancelUpdateMeans(s: Fd, payload: seq<byte>, ops: Platform)
    ensures var t := Leaves(s, Command(0x1D, s, payload, ops));
      var touched := if s.state == Idle then s else s.(t1Stamp := ops.clock.check);
      var cancelled := CanCancel(s) && ops.cancelUpdateComponent.Returns? && ops.nonFunctional.Returns?
                       && |payload| >= 13;
      && (t.state != s.state <==> cancelled)
      && t == if cancelled then touched.(state := Idle, prev := s.state, reason := Some(Cancelled)) else touched
  {
    hide Le64;
  }

  lemma BitmapReadsBack(o: Outcome, payload: seq<byte>, code: byte, flag: byte, bitmap: u64)
    requires |payload| >= 13 && Replies(o, payload, 0x1D, [code, flag] + Le64(bitmap))
    ensures o.payload[3] == code && o.payload[4] == flag && FromLe64(o.payload[5..]) == bitmap
  {
    hide Le64, FromLe64;
    ReadLe64(bitmap, payload[13..]);
    assert o.payload[5..] == Le64(bitmap) + payload[13..];
  }

  /** The reply tells whether the update was cancelled and which components no longer function. */
  lemma CancelUpdateAnswers(s: Fd, payload: seq<byte>, ops: Platform)
    ensures var o := Command(0x1D, s, payload, ops);
      if s.state == Idle then Refuses(o, payload, 0x80)
      else if CanCancel(s) && ops.cancelUpdateComponent.Fails? then
        Breaks(o, payload, ops.cancelUpdateComponent.error)
      else if |payload| < 3 then Refuses(o, payload, 0x03)
      else if ops.nonFunctional.Fails? then Breaks(o, payload, ops.nonFunctional.error)
      else
        var (code, flag) := (if CanCancel(s) then 0 else 1, if ops.nonFunctional.value.0 then 1 else 0);
        && Replies(o, payload, 0x1D, [code, flag] + Le64(ops.nonFunctional.value.1))
        && (|payload| >= 13 ==>
              && |o.payload| >= 13 && o.payload[3] == code && o.payload[4] == flag
              && FromLe64(o.payload[5..]) == ops.nonFunctional.value.1)
  {
    hide Fail, Refuses, Reply, Le64, FromLe64;
    FailRefuses(payload);
    if |payload| >= HEADER_LEN {
      ReplyReplies(payload);
      var o := Command(0x1D, s, payload, ops);
      if s.state != Idle && |payload| >= 13 && ops.nonFunctional.Returns?
         && !(CanCancel(s) && ops.cancelUpdateComponent.Fails?) {
        BitmapReadsBack(o, payload, if CanCancel(s) then 0 else 1, if ops.nonFunctional.value.0 then 1 else 0,
                        ops.nonFunctional.value.1);
      }
    }
  }

  // ---- Commands that leave the update alone ----

  /** What GetStatus puts on the wire. */
  ghost predicate Shows(o: Outcome, s: Fd, progress: byte) {
    && o.result == Ok(14) && |o.payload| >= 14 && o.payload[3] == 0
    && (o.payload[4] == match s.state
                        case Idle => 0 case LearnComponents => 1 case ReadyXfer => 2 case Download => 3
                        case Verify => 4 case Apply => 5 case Activate => 6)
    && (o.payload[5] == match s.prev
                        case Idle => 0 case LearnComponents => 1 case ReadyXfer => 2 case Download => 3
                        case Verify => 4 case Apply => 5 case Activate => 6)
    && (o.payload[6] == 0 <==> s.req.state == Sent || (s.req.state == Ready && !s.req.complete))
    && (o.payload[6] == 1 <==> s.req.state == Ready && s.req.complete)
    && (o.payload[6] == 2 <==> s.req.state == Failed)
    && (o.payload[6] == 3 <==> s.req.state == Unused)
    && (s.req.state != Failed ==> o.payload[7] == 0)
    && (s.req.state == Failed ==> o.payload[7] == if s.req.result.Some? then s.req.result.value else 0x0a)
    && o.payload[8] == progress
    && (o.payload[9] == match s.reason
                        case None => 0 case Some(Activated) => 1 case Some(Cancelled) => 2
                        case Some(LearnComponentTimeout) => 3 case Some(ReadyXferTimeout) => 4
                        case Some(DownloadTimeout) => 5 case Some(VerifyTimeout) => 6 case Some(ApplyTimeout) => 7)
    && o.payload[10..14] == [s.flags % 2, 0, 0, 0]
  }

  /** GetStatus shows every field of the state, and the progress of the phase that is running. */
  lemma GetStatusAnswers(s: Fd, payload: seq<byte>, ops: Platform)
    requires Inv(s)
    ensures var o := Command(0x1B, s, payload, ops);
      && Leaves(s, o) == s
      && if |payload| < 14 then Refuses(o, payload, 0x03)
         else Shows(o, s,
                    if s.state == Download && ops.downloadProgress.Returns? then ops.downloadProgress.value
                    else if s.state in {Verify, Apply} then s.phase.progress
                    else 101)
  {
    hide HistoryFits, ReqMatches, SentIsFilledIn;
  }

  /** A response that carries these descriptors and decodes to them. */
  ghost predicate Identifies(o: Outcome, payload: seq<byte>, ds: seq<D.Descriptor>)
    requires |payload| >= 3 && 1 <= |ds| <= 4 && forall d :: d in ds ==> D.Encodable(d)
  {
    var n := 9 + DeviceIds.TotalSize(ds);
    if |payload| < n then Refuses(o, payload, 0x03)
    else
      && o.result == Ok(n) && |o.payload| == |payload| && o.payload[..4] == [payload[0] % 0x20, 0x05, 0x01, 0]
      && ((forall d :: d in ds ==> D.WellFormed(d)) ==>
            var r := DeviceIds.Parse(o.payload);
            && r.Ok? && r.value.hdr == o.payload[..3] && r.value.completionCode == 0
            && r.value.identifiersLen as int == n - 9 && r.value.descriptorCount as int == |ds|
            && DeviceIds.Listed(r.value) == ds)
  }

  lemma NewIdentifies(payload: seq<byte>, ds: DescriptorArray, count: nat)
    requires |payload| >= 3 && 1 <= count <= 4
    ensures var r := DeviceIds.New(InstanceId(payload[0]), SUCCESS, ds[0], ds[1..count]).value;
      var reply := Respond(payload, DeviceIds.Wire(r));
      Identifies(Outcome(reply.payload, reply.result, Skip), payload, ds[..count])
  {
    hide D.WellFormed, D.Encodable, DeviceIds.Parse, DeviceIds.Wire;
    var r := DeviceIds.New(InstanceId(payload[0]), SUCCESS, ds[0], ds[1..count]).value;
    assert [ds[0]] + ds[1..count] == ds[..count];
    DeviceIds.ConstructorAgreesWithEncoder(InstanceId(payload[0]), SUCCESS, ds[0], ds[1..count]);
    DeviceIds.WireStarts(r);
    if |payload| >= DeviceIds.Size(r) && forall d :: d in ds[..count] ==> D.WellFormed(d) {
      DeviceIds.RoundTrip(r, payload[DeviceIds.Size(r)..]);
    }
  }

  /** The reply to QueryDeviceIdentifiers carries the platform's descriptors. */
  lemma QueryDeviceIdentifiersAnswers(s: Fd, payload: seq<byte>, ops: Platform)
    ensures var o := Command(0x01, s, payload, ops);
      if |payload| < 3 then Refuses(o, payload, 0x03)
      else
        match ops.deviceIdentifiers
        case Fails(e) => Breaks(o, payload, e)
        case Returns((ds, count)) =>
          if 1 <= count <= 4 then Identifies(o, payload, ds[..count]) else Breaks(o, payload, DeviceIdentifiersError)
  {
    hide Identifies;
    if |payload| >= 3 && ops.deviceIdentifiers.Returns? {
      var (ds, count) := ops.deviceIdentifiers.value;
      if 1 <= count <= 4 { NewIdentifies(payload, ds, count); }
    }
  }

  /** The reply to GetFirmwareParameters carries the platform's parameters, and decodes to them. */
  lemma GetFirmwareParametersAnswers(s: Fd, payload: seq<byte>, ops: Platform)
    ensures var o := Command(0x02, s, payload, ops);
      if |payload| < 3 then Refuses(o, payload, 0x03)
      else
        match ops.firmwareParams
        case Fails(e) => Breaks(o, payload, e)
        case Returns(p) =>
          && Replies(o, payload, 0x02, [0] + F.Wire(p))
          && (|payload| >= 4 + |F.Wire(p)| && F.WellFormed(p) ==>
                |o.payload| == |payload| && F.Parse(o.payload[4..]) == Ok(p))
  {
    hide F.Wire, F.Parse, F.WellFormed, Reply, Fail, Refuses;
    FailRefuses(payload);
    if |payload| >= 3 && ops.firmwareParams.Returns? {
      ReplyReplies(payload);
      var p, o := ops.firmwareParams.value, Command(0x02, s, payload, ops);
      var n := 4 + |F.Wire(p)|;
      if |payload| >= n && F.WellFormed(p) {
        FirmwareParametersLaws.RoundTrip(p, payload[n..]);
        assert o.payload[4..] == F.Wire(p) + payload[n..];
      }
    }
  }

  /** ActivatePendingComponentImage tells what became of the component; a time only goes with Success. */
  lemma PendingComponentAnswers(s: Fd, payload: seq<byte>, ops: Platform)
    ensures var o := Command(0x1F, s, payload, ops);
      if s.state != Idle then Refuses(o, payload, 0x84)
      else if |payload| < 8 then Refuses(o, payload, 0x03)
      else if payload[3] == 0xFF && payload[4] == 0xFF then Refuses(o, payload, 0x02)
      else if ops.firmwareParams.Fails? then Breaks(o, payload, ops.firmwareParams.error)
      else
        match ops.pendingComponent
        case Fails(e) => Breaks(o, payload, e)
        case Returns(PendingActivated(time)) =>
          Replies(o, payload, 0x1F, [0] + Le16(time)) && |o.payload| >= 6 && FromLe16(o.payload[4..]) == time
        case Returns(PendingNotRequired) => Replies(o, payload, 0x1F, [0x8B, 0, 0])
        case Returns(PendingNotPermitted) => Replies(o, payload, 0x1F, [0x92, 0, 0])
  {
  }

  /** UpdateSecurityRevision tells whether the platform did it. */
  lemma SecurityRevisionAnswers(s: Fd, payload: seq<byte>, ops: Platform)
    ensures var o := Command(0x22, s, payload, ops);
      if s.state != Idle then Refuses(o, payload, 0x84)
      else if |payload| < 8 then Refuses(o, payload, 0x03)
      else if payload[3] == 0xFF && payload[4] == 0xFF then Refuses(o, payload, 0x02)
      else if ops.firmwareParams.Fails? then Breaks(o, payload, ops.firmwareParams.error)
      else if ops.securityRevision.Fails? then Breaks(o, payload, ops.securityRevision.error)
      else Replies(o, payload, 0x22, [if ops.securityRevision.value then 0 else 0x95])
  {
    hide Fail, Refuses, Reply;
    FailRefuses(payload);
    if |payload| >= HEADER_LEN { ReplyReplies(payload); }
  }

  lemma UnknownIsRefused(opcode: byte, s: Fd, payload: seq<byte>, ops: Platform)
    requires opcode !in {0x01, 0x02, 0x10, 0x13, 0x14, 0x1A, 0x1B, 0x1C, 0x1D, 0x1F, 0x22}
    ensures var o := Command(opcode, s, payload, ops); Refuses(o, payload, 0x05) && Leaves(s, o) == s
  {
  }
}
