// What comes of requests that go through dispatch: whole updates, status, terminus ids, and
// whether discovery told the truth about them.
module DispatchRuns {
  import opened Bytes
  import opened Base
  import opened Bitmap
  import opened Control
  import opened ControlLaws
  import opened FdState
  import opened FdInvariant
  import opened FdHandlers
  import opened FdHandlerLaws
  import opened FdOutcomes
  import opened FdDownload
  import opened FdCalls
  import opened CmdInterfaces

  /** A request of this type with a well-formed header. */
  predicate IsRequestOf(payload: seq<byte>, pldmType: byte) {
    |payload| >= 3 && payload[0] >= 0x80 && payload[1] == pldmType
  }

  /** A header that dispatch does not look behind. */
  predicate IsMalformed(payload: seq<byte>) { |payload| < 3 || payload[0] < 0x80 || payload[1] >= 0x40 }

  /** A malformed header is refused with INVALID_DATA, and neither device nor terminus id notice. */
  lemma MalformedIsRefused(caps: seq<Capability>, tid: byte, s: Fd, payload: seq<byte>, ops: Platform)
    requires IsMalformed(payload)
    ensures var p := Process(caps, tid, s, payload, ops);
      && p.tid == tid && p.acts == []
      && if |payload| < 4 then p.reply == Handled(payload, Err(Codec(BufferTooShort)))
         else p.reply.result == Ok(4)
              && p.reply.payload == [payload[0] % 0x80, payload[1], payload[2], 0x02] + payload[4..]
  {
  }

  lemma RequestIsPreprocessed(caps: seq<Capability>, payload: seq<byte>, t: TypeCode)
    requires IsRequestOf(payload, t)
    ensures IsSupportedCommand(caps, t, payload[2]) ==> Preprocess(caps, payload) == Ok((t, payload[2]))
    ensures !IsSupportedCommand(caps, t, payload[2]) ==> Preprocess(caps, payload).Err?
  {
    FirstOfTypeExists(caps, t);
  }

  /** A listed firmware-update request reaches its handler, and the handler's answer goes out. */
  lemma ListedIsDispatched(caps: seq<Capability>, tid: byte, s: Fd, payload: seq<byte>, ops: Platform)
    requires IsRequestOf(payload, 0x05) && IsSupportedCommand(caps, 0x05, payload[2])
    ensures var o := Command(payload[2], s, payload, ops);
      Process(caps, tid, s, payload, ops) == Processed(Handled(o.payload, o.result), tid, [o.act])
  {
    hide Command;
    RequestIsPreprocessed(caps, payload, 0x05);
  }

  /** A listed control request reaches its responder. */
  lemma ListedIsAnswered(caps: seq<Capability>, tid: byte, s: Fd, payload: seq<byte>, ops: Platform)
    requires IsRequestOf(payload, 0x00) && IsSupportedCommand(caps, 0x00, payload[2])
    ensures Process(caps, tid, s, payload, ops)
      == Processed(ControlCommand(payload[2], caps, tid, payload), TidAfter(payload[2], tid, payload), [])
  {
    hide ControlCommand;
    RequestIsPreprocessed(caps, payload, 0x00);
  }

  // ---- Runs through dispatch ----

  /** A call as it arrives: a command is a request of its type and opcode, which the table lists. */
  predicate Arrives(caps: seq<Capability>, call: Call) {
    call.Asks? ==>
      IsRequestOf(call.payload, 0x05) && call.payload[2] == call.opcode && IsSupportedCommand(caps, 0x05, call.opcode)
  }

  /** The commands of a run are processed requests; its other calls are made on the device. */
  ghost predicate Routes(caps: seq<Capability>, tid: byte, s: Fd, acts: seq<Action>, calls: seq<Call>) {
    && |acts| == |calls|
    && (acts != [] ==>
          var k := |acts| - 1;
          var u := After(s, acts[..k]);
          && Routes(caps, tid, s, acts[..k], calls[..k]) && Inv(u)
          && match calls[k]
             case Asks(_, payload, ops) =>
               Process(caps, tid, u, payload, ops).acts == [acts[k]] && Process(caps, tid, u, payload, ops).tid == tid
             case _ => acts[k] == ActOf(u, calls[k]))
  }

  /** Dispatch adds nothing and loses nothing: a run of handler calls whose commands arrive as
      listed requests is a run through dispatch. */
  lemma {:induction false} ServedIsRouted(caps: seq<Capability>, tid: byte, s: Fd, acts: seq<Action>, calls: seq<Call>)
    requires Serves(s, acts, calls) && forall i :: 0 <= i < |calls| ==> Arrives(caps, calls[i])
    ensures Routes(caps, tid, s, acts, calls)
  {
    hide After, Inv, Command, Process, IsSupportedCommand;
    if acts == [] {
    } else {
      var k := |acts| - 1;
      ServedIsRouted(caps, tid, s, acts[..k], calls[..k]);
      assert Arrives(caps, calls[k]);
      if calls[k].Asks? { ListedIsDispatched(caps, tid, After(s, acts[..k]), calls[k].payload, calls[k].ops); }
    }
  }

  /** The reply grants the request. */
  predicate Grants(p: Processed) {
    p.reply.result.Ok? && |p.reply.payload| >= 4 && p.reply.payload[3] in {0x00, 0x8B}
  }

  lemma MovingIsGranted(caps: seq<Capability>, tid: byte, s: Fd, call: Call)
    requires Inv(s) && call.Asks? && Arrives(caps, call) && !Quiet(ActOf(s, call))
    ensures Grants(Process(caps, tid, s, call.payload, call.ops))
  {
    hide Process, IsSupportedCommand, Inv;
    ListedIsDispatched(caps, tid, s, call.payload, call.ops);
    if call.opcode as int in SETUP {
      hide Command;
      if !FdHandlerLaws.Grants(call.opcode, Command(call.opcode, s, call.payload, call.ops)) {
        SetupRefusalIsQuiet(call.opcode, s, call.payload, call.ops);
      }
    } else if call.opcode as int in ENDING {
      hide Command;
      if !FdHandlerLaws.Grants(call.opcode, Command(call.opcode, s, call.payload, call.ops)) {
        EndingRefusalIsQuiet(call.opcode, s, call.payload, call.ops);
      }
    } else {
      hide Command;
      OthersAreQuiet(call.opcode, s, call.payload, call.ops);
    }
  }

  const UPDATE_COMMANDS: set<byte> := {0x10, 0x13, 0x14, 0x1A}

  lemma CommandsArrive(caps: seq<Capability>, c: Component, granting: Platform, activating: Platform,
                       calls: seq<Call>, i: nat)
    requires forall command :: command in UPDATE_COMMANDS ==> IsSupportedCommand(caps, 0x05, command)
    requires |calls| > 3 && Describable(c) && calls[..3] == SetupCalls(c, granting)
    requires NoCommands(calls[3..|calls| - 1]) && calls[|calls| - 1] == Asks(0x1A, ACTIVATE_FIRMWARE, activating)
    requires i < |calls|
    ensures Arrives(caps, calls[i]) && (calls[i].Asks? ==> i < 3 || i == |calls| - 1)
  {
    hide IsSupportedCommand, Describable, ComponentWire;
    if i < 3 {
      assert calls[i] == calls[..3][i];
    } else if i < |calls| - 1 {
      assert calls[i] == calls[3..|calls| - 1][i - 3];
    }
  }

  /** A whole update through dispatch, on any table that lists the four commands it takes: the
      commands are processed as requests and granted, the exchanges deliver exactly the image,
      and the activation of the finished component leaves the device idle. */
  lemma UpdateThroughDispatch(caps: seq<Capability>, tid: byte, s: Fd, xfer: u32, c: Component, image: seq<byte>,
                              buffer: seq<byte>, granting: Platform, ops: seq<(Platform, Platform)>,
                              working: Platform, activating: Platform)
    returns (acts: seq<Action>, calls: seq<Call>)
    requires forall command :: command in UPDATE_COMMANDS ==> IsSupportedCommand(caps, 0x05, command)
    requires Inv(s) && s.state == Idle && FdCalls.Grants(granting, xfer) && Succeeds(working)
    requires Describable(c) && c.imageSize == Some(|image|)
    requires 0 < xfer && |image| + MAX_PADDING_SIZE < U32_MODULUS && |buffer| >= REQUEST_LEN
    requires |ops| == PiecesLeft(|image|, xfer)
    requires activating.activate.Returns? && activating.activate.value.0 in {SUCCESS, ACTIVATION_NOT_REQUIRED}
    ensures Routes(caps, tid, s, acts, calls) && |acts| == |calls| == 3 + 2 * |ops| + 6 + 1
    ensures calls[..3] == SetupCalls(c, granting) && NoCommands(calls[3..|calls| - 1])
    ensures calls[|calls| - 1] == Asks(0x1A, ACTIVATE_FIRMWARE, activating)
    ensures forall i :: 0 <= i < |calls| && calls[i].Asks? ==>
      Grants(Process(caps, tid, After(s, acts[..i]), calls[i].payload, calls[i].ops))
    ensures DeliveredIn(acts) == image
    ensures var t := After(s, acts);
      t.state == Idle && t.prev == Activate && t.reason == Some(Activated) && t.comp == c
  {
    hide After, Inv, Serves, Process, Describable, UpdateRequest, ActOf, DeliveredIn, IsSupportedCommand;
    acts, calls := UpdateIsActivated(s, xfer, c, image, buffer, granting, ops, working, activating);
    forall i | 0 <= i < |calls| ensures Arrives(caps, calls[i]) {
      CommandsArrive(caps, c, granting, activating, calls, i);
    }
    ServedIsRouted(caps, tid, s, acts, calls);
    forall i | 0 <= i < |calls| && calls[i].Asks?
      ensures Grants(Process(caps, tid, After(s, acts[..i]), calls[i].payload, calls[i].ops))
    {
      CommandsArrive(caps, c, granting, activating, calls, i);
      ServedAt(s, acts, calls, i);
      assert i < 3 ==> acts[i] == acts[..3][i];
      MovingIsGranted(caps, tid, After(s, acts[..i]), calls[i]);
    }
  }

  /** A listed GetStatus that leaves room for its reply tells the state of the device. */
  lemma StatusThroughDispatch(caps: seq<Capability>, tid: byte, s: Fd, payload: seq<byte>, ops: Platform)
    requires Inv(s) && IsRequestOf(payload, 0x05) && payload[2] == 0x1B && IsSupportedCommand(caps, 0x05, 0x1B)
    requires |payload| >= 14
    ensures var p := Process(caps, tid, s, payload, ops);
      && p.acts == [Skip] && p.tid == tid && p.reply.result == Ok(14) && |p.reply.payload| == |payload|
      && p.reply.payload[3] == 0 && p.reply.payload[4] == StateCode(s.state) && p.reply.payload[5] == StateCode(s.prev)
  {
    hide IsSupportedCommand, Process;
    ListedIsDispatched(caps, tid, s, payload, ops);
  }

  // ---- The terminus id ----

  datatype Request = Request(fd: Fd, payload: seq<byte>, ops: Platform)

  /** The terminus id after these requests, whatever state the device was in at each. */
  function TidOver(caps: seq<Capability>, tid: byte, rs: seq<Request>): byte {
    if rs == [] then tid
    else
      var before, r := TidOver(caps, tid, rs[..|rs| - 1]), rs[|rs| - 1];
      Process(caps, before, r.fd, r.payload, r.ops).tid
  }

  predicate SetsTid(r: Request) { |r.payload| >= 4 && IsRequestOf(r.payload, 0x00) && r.payload[2] == 0x01 }

  /** A listed SetTID takes effect even if its reply does not fit, and nothing else touches the id. */
  lemma TidStep(caps: seq<Capability>, tid: byte, r: Request)
    requires IsSupportedCommand(caps, 0x00, 0x01)
    ensures Process(caps, tid, r.fd, r.payload, r.ops).tid == if SetsTid(r) then r.payload[3] else tid
  {
    if SetsTid(r) { RequestIsPreprocessed(caps, r.payload, 0x00); }
  }

  /** GetTID returns the id that was set last, whatever requests came after. */
  lemma {:induction false} LastSetTidCounts(caps: seq<Capability>, tid: byte, rs: seq<Request>, i: nat, ask: Request)
    requires IsSupportedCommand(caps, 0x00, 0x01) && IsSupportedCommand(caps, 0x00, 0x02)
    requires i < |rs| && SetsTid(rs[i]) && forall j :: i < j < |rs| ==> !SetsTid(rs[j])
    requires IsRequestOf(ask.payload, 0x00) && ask.payload[2] == 0x02 && |ask.payload| >= 5
    ensures TidOver(caps, tid, rs) == rs[i].payload[3]
    ensures var p := Process(caps, TidOver(caps, tid, rs), ask.fd, ask.payload, ask.ops);
      && p.reply.result == Ok(5) && |p.reply.payload| == |ask.payload|
      && p.reply.payload[3] == 0 && p.reply.payload[4] == rs[i].payload[3]
  {
    hide Process, IsSupportedCommand, SetsTid;
    var k := |rs| - 1;
    TidStep(caps, TidOver(caps, tid, rs[..k]), rs[k]);
    if i < k { LastSetTidCounts(caps, tid, rs[..k], i, ask); }
    ListedIsAnswered(caps, TidOver(caps, tid, rs), ask.fd, ask.payload, ask.ops);
  }

  // ---- Discovery ----

  /** Bit t of the GetPLDMTypes reply is set exactly when a request of type t is not refused for
      its type. */
  lemma TypesPredictDispatch(caps: seq<Capability>, tid: byte, s: Fd, ask: seq<byte>, request: seq<byte>, ops: Platform)
    requires IsRequestOf(ask, 0x00) && ask[2] == 0x04 && IsSupportedCommand(caps, 0x00, 0x04) && |ask| >= 12
    requires |request| >= 4 && request[1] < 0x40 && IsRequestOf(request, request[1])
    ensures var p := Process(caps, tid, s, ask, ops);
      && p.reply.result == Ok(12) && |p.reply.payload| == |ask| && p.reply.payload[3] == 0
      && (IsBitSet(p.reply.payload[4..12], request[1]) <==> Preprocess(caps, request) != Err(INVALID_PLDM_TYPE))
  {
    hide TypesBitmap, IsBitSet, IsSupportedCommand, Process;
    ListedIsAnswered(caps, tid, s, ask, ops);
    TypesBitmapIsExact(caps, request[1]);
    assert Process(caps, tid, s, ask, ops).reply.payload[4..12] == TypesBitmap(caps);
  }

  /** A requester that asks for the version of the firmware-update type and then for the commands
      of that version knows of every request of that type whether it reaches the device. */
  lemma DiscoveryPredictsDispatch(caps: seq<Capability>, tid: byte, s: Fd, ask: seq<byte>, next: seq<byte>,
                                  request: seq<byte>, ops: Platform)
    requires IsRequestOf(ask, 0x00) && ask[2] == 0x03 && IsSupportedCommand(caps, 0x00, 0x03)
    requires IsRequestOf(next, 0x00) && next[2] == 0x05 && IsSupportedCommand(caps, 0x00, 0x05)
    requires |ask| >= 13 && ask[7] == GET_FIRST_PART && ask[8] == 0x05 && IsSupportedType(caps, 0x05)
    requires FirstOfType(caps, 0x05).Some? && |FirstOfType(caps, 0x05).value.commands| <= 256
    requires var p := Process(caps, tid, s, ask, ops);
      |p.reply.payload| >= 13 && |next| >= 36 && next[3] == 0x05 && next[4..8] == p.reply.payload[9..13]
    requires IsRequestOf(request, 0x05)
    ensures var p := Process(caps, tid, s, next, ops);
      && p.reply.result == Ok(36) && |p.reply.payload| >= 36 && p.reply.payload[3] == 0
      && (IsBitSet(p.reply.payload[4..36], request[2]) <==> Process(caps, tid, s, request, ops).acts != [])
  {
    hide IsSupportedCommand, GetPldmVersion, GetPldmCommands, IsBitSet, Command, FromLe32, Preprocess;
    ListedIsAnswered(caps, tid, s, ask, ops);
    ListedIsAnswered(caps, tid, s, next, ops);
    DiscoveryIsExact(caps, ask, next, request[2]);
    RequestIsPreprocessed(caps, request, 0x05);
  }
}
