// A whole download. The platform asks for the bytes it still lacks, the update agent
// answers each request with those bytes of the image, and after as many exchanges as
// there are transfer-sized pieces the stored bytes are the image.
module FdDownload {
  import opened Bytes
  import opened Base
  import opened FdState
  import opened FdInvariant
  import opened FdHandlers
  import opened FdHandlerLaws

  datatype Session = Session(fd: Fd, stored: seq<byte>)

  const REQUEST_LEN := 11

  /** The update agent reads offset and length off the wire and sends those bytes. */
  function AgentAnswer(request: seq<byte>, image: seq<byte>): (answer: seq<byte>)
    requires |request| >= REQUEST_LEN
  {
    var offset, length := FromLe32(request[3..]) as int, FromLe32(request[7..]) as int;
    [request[0] % 0x80, request[1], request[2], SUCCESS] +
    (if offset + length <= |image| then image[offset..offset + length] else [])
  }

  /** The platform wants everything after what it has stored. */
  function Wanting(ops: Platform, stored: seq<byte>, image: seq<byte>): Platform
    requires |stored| <= |image|
  {
    ops.(downloadOffsetAndLength := Returns((|stored|, |image| - |stored|)))
  }

  /** The platform stores what it is given and is done once it has the image's length. */
  function Storing(ops: Platform, stored: seq<byte>, image: seq<byte>): Platform {
    ops.(downloadFwData := Returns(RESULT_SUCCESS), isDownloadComplete := |stored| == |image|)
  }

  /** The bytes an action hands to the platform and the platform keeps. */
  function Delivered(a: Action): seq<byte> {
    if a.Answered? && a.answer.Data? && a.answer.outcome == Returns(RESULT_SUCCESS) then a.answer.data else []
  }

  function DeliveredIn(acts: seq<Action>): seq<byte> {
    if acts == [] then [] else DeliveredIn(acts[..|acts| - 1]) + Delivered(acts[|acts| - 1])
  }

  /** The device's turn: one `fd_progress` call. */
  function Ask(x: Session, image: seq<byte>, buffer: seq<byte>, ops: Platform): Outcome
    requires Inv(x.fd) && |x.stored| <= |image|
  {
    Progress(x.fd, buffer, Wanting(ops, x.stored, image))
  }

  lemma ProgressKeepsLength(s: Fd, payload: seq<byte>, ops: Platform)
    requires Inv(s)
    ensures |Progress(s, payload, ops).payload| == |payload|
  {
  }

  /** One `fd_progress` call, the agent's answer, and one `handle_response` call. */
  function Turns(x: Session, image: seq<byte>, buffer: seq<byte>, ops: (Platform, Platform)): (Action, Action)
    requires Inv(x.fd) && |x.stored| <= |image| && |buffer| >= REQUEST_LEN
  {
    var o := Ask(x, image, buffer, ops.0);
    ProgressIsEnabled(x.fd, buffer, Wanting(ops.0, x.stored, image));
    StepKeepsInv(x.fd, o.act);
    ProgressKeepsLength(x.fd, buffer, Wanting(ops.0, x.stored, image));
    var answer := AgentAnswer(o.payload, image);
    (o.act, HandleResponse(Perform(x.fd, o.act), answer, Storing(ops.1, x.stored + answer[4..], image)).1)
  }

  function Exchange(x: Session, image: seq<byte>, buffer: seq<byte>, ops: (Platform, Platform)): Session
    requires Inv(x.fd) && |x.stored| <= |image| && |buffer| >= REQUEST_LEN
  {
    var (asked, answered) := Turns(x, image, buffer, ops);
    Session(Perform(Perform(x.fd, asked), answered), x.stored + Delivered(answered))
  }

  /** Waiting to ask for more of the image. */
  ghost predicate Downloading(x: Session, image: seq<byte>) {
    && Inv(x.fd) && x.fd.state == Download && x.fd.req.state == Ready && !x.fd.req.complete
    && x.fd.comp.imageSize == Some(|image|) && |image| + MAX_PADDING_SIZE < U32_MODULUS
    && x.stored <= image && (x.stored == image ==> image == [])
  }

  /** Everything stored; the next message will be TransferComplete. */
  ghost predicate Downloaded(x: Session, image: seq<byte>) {
    && Inv(x.fd) && x.fd.state == Download && x.fd.req.state == Ready
    && x.fd.req.complete && x.fd.req.result == Some(RESULT_SUCCESS)
    && x.stored == image
  }

  function Piece(x: Session, image: seq<byte>): int
  {
    if |image| - |x.stored| < x.fd.maxXfer as int then |image| - |x.stored| else x.fd.maxXfer as int
  }

  /** The request record of a RequestFirmwareData just sent. */
  predicate Asked(req: Req, id: byte) {
    req.state == Sent && !req.complete && req.instanceId == Some(id) && req.command == Some(CMD_REQUEST_FW_DATA)
  }

  /** Progress with a range inside the image, on a buffer that can hold the request. */
  lemma ProgressFetches(s: Fd, buffer: seq<byte>, ops: Platform, offset: u32, length: u32, n: u32)
    requires Inv(s) && s.state == Download && s.req.state == Ready && !s.req.complete
    requires ops.downloadOffsetAndLength == Returns((offset as nat, length as nat))
    requires DownloadChunk(s, offset, length) == Some((offset, n)) && |buffer| >= REQUEST_LEN
    ensures var id := NextInstanceId(s.req.instanceId);
      var message := RequestHeader(id, TYPE_FW_UPDATE, CMD_REQUEST_FW_DATA) + (Le32(offset) + Le32(n));
      Progress(s, buffer, ops)
        == Outcome(message + buffer[REQUEST_LEN..], Ok(REQUEST_LEN), Fetch(ops.clock, offset, length))
  {
    hide Inv, DownloadChunk, Le32;
  }

  lemma FetchRecords(s: Fd, at: Clock, offset: u32, length: u32, n: u32)
    requires Inv(s) && s.state == Download && DownloadChunk(s, offset, length) == Some((offset, n))
    ensures var t := Perform(s, Fetch(at, offset, length));
      t == s.(phase := DownloadPhase(offset, n), req := t.req) && Asked(t.req, NextInstanceId(s.req.instanceId))
  {
  }

  lemma AskSendsRequest(x: Session, image: seq<byte>, buffer: seq<byte>, ops: Platform)
    requires Downloading(x, image) && |buffer| >= REQUEST_LEN
    ensures var o, n, id := Ask(x, image, buffer, ops), Piece(x, image), NextInstanceId(x.fd.req.instanceId);
      var t := Perform(x.fd, o.act);
      && o.act.Fetch? && o.result == Ok(REQUEST_LEN) && |o.payload| == |buffer|
      && o.payload[..REQUEST_LEN]
           == RequestHeader(id, TYPE_FW_UPDATE, CMD_REQUEST_FW_DATA) + (Le32(|x.stored|) + Le32(n))
      && t == x.fd.(phase := DownloadPhase(|x.stored|, n), req := t.req) && Asked(t.req, id)
  {
    hide Progress, Perform, Le32;
    var offset: u32, length: u32 := |x.stored|, |image| - |x.stored|;
    var n: u32 := Piece(x, image);
    assert DownloadChunk(x.fd, offset, length) == Some((offset, n)) by { hide Inv; }
    ProgressFetches(x.fd, buffer, Wanting(ops, x.stored, image), offset, length, n);
    FetchRecords(x.fd, ops.clock, offset, length, n);
  }

  lemma AnswerHasThePiece(request: seq<byte>, image: seq<byte>, header: seq<byte>, offset: u32, length: u32)
    requires |request| >= REQUEST_LEN && |header| == HEADER_LEN
    requires request[..REQUEST_LEN] == header + (Le32(offset) + Le32(length))
    requires offset as int + length as int <= |image|
    ensures AgentAnswer(request, image)
      == [header[0] % 0x80, header[1], header[2], SUCCESS] + image[offset..offset as int + length as int]
  {
  }

  /** Storing a piece either completes the request or makes it ready for the next one. */
  lemma DataConcludes(fd: Fd, now: nat, id: byte, piece: seq<byte>, finished: bool)
    requires Inv(fd) && fd.state == Download && Asked(fd.req, id)
    requires fd.phase.DownloadPhase? && fd.phase.length == |piece|
    ensures var a := Answered(now, id, CMD_REQUEST_FW_DATA,
                              Data(fd.comp, fd.phase.offset, piece, Returns(RESULT_SUCCESS), finished));
      var t := Perform(fd, a);
      && Inv(t) && t.state == Download && t.comp == fd.comp && t.maxXfer == fd.maxXfer
      && t.req == (if finished then Req(Ready, true, Some(RESULT_SUCCESS), None, None, None) else FreshReq(Ready))
  {
  }

  lemma NextIdFits(s: Fd)
    requires Inv(s)
    ensures (NextInstanceId(s.req.instanceId) + 0x80) % 0x80 % 0x20 == NextInstanceId(s.req.instanceId)
  {
  }

  lemma AnswerIsData(fd: Fd, answer: seq<byte>, ops: Platform, id: byte, piece: seq<byte>)
    requires Inv(fd) && fd.state == Download && fd.req.state == Sent && !fd.req.complete
    requires fd.req.instanceId == Some(id) && fd.req.command == Some(CMD_REQUEST_FW_DATA)
    requires |answer| == 4 + |piece| && InstanceId(answer[0]) == id
    requires answer[2] == CMD_REQUEST_FW_DATA && answer[3] == SUCCESS
    requires answer[4..] == piece && fd.phase.DownloadPhase? && fd.phase.length == |piece|
    requires ops.downloadFwData == Returns(RESULT_SUCCESS)
    ensures HandleResponse(fd, answer, ops).1 ==
      Answered(ops.clock.check, id, CMD_REQUEST_FW_DATA,
               Data(fd.comp, fd.phase.offset, piece, Returns(RESULT_SUCCESS), ops.isDownloadComplete))
  {
    assert answer[4..4 + |piece|] == answer[4..];
  }

  /** One exchange stores the next piece of the image, and all of it exactly when done. */
  lemma ExchangeStoresPiece(x: Session, image: seq<byte>, buffer: seq<byte>, ops: (Platform, Platform))
    requires Downloading(x, image) && |buffer| >= REQUEST_LEN
    ensures var y := Exchange(x, image, buffer, ops);
      && y.stored == image[..|x.stored| + Piece(x, image)]
      && y.fd.maxXfer == x.fd.maxXfer && y.fd.comp == x.fd.comp
      && if y.stored == image then Downloaded(y, image) else Downloading(y, image)
  {
    hide Progress, HandleResponse, Perform, Inv, AgentAnswer, Le32, Enabled;
    var o, n := Ask(x, image, buffer, ops.0), Piece(x, image);
    AskSendsRequest(x, image, buffer, ops.0);
    ProgressIsEnabled(x.fd, buffer, Wanting(ops.0, x.stored, image));
    StepKeepsInv(x.fd, o.act);
    var fd := Perform(x.fd, o.act);
    var id := NextInstanceId(x.fd.req.instanceId);
    var header := RequestHeader(id, TYPE_FW_UPDATE, CMD_REQUEST_FW_DATA);
    AnswerHasThePiece(o.payload, image, header, |x.stored|, n);
    var answer := AgentAnswer(o.payload, image);
    var piece := image[|x.stored|..|x.stored| + n];
    assert answer[4..] == piece;
    NextIdFits(x.fd);
    var platform := Storing(ops.1, x.stored + piece, image);
    AnswerIsData(fd, answer, platform, id, piece);
    DataConcludes(fd, platform.clock.check, id, piece, platform.isDownloadComplete);
    assert x.stored + piece == image[..|x.stored| + n];
    assert |x.stored| + n == |image| ==> image[..|x.stored| + n] == image;
  }

  // ---- Until the image is there ----

  /** Exchanges, one for each pair of platform answers, for as long as bytes are missing. */
  ghost function Exchanges(x: Session, image: seq<byte>, buffer: seq<byte>, ops: seq<(Platform, Platform)>): Session
    requires Downloading(x, image) && |buffer| >= REQUEST_LEN
    decreases |ops|
  {
    if ops == [] then x
    else
      var y := Exchange(x, image, buffer, ops[0]);
      if Downloading(y, image) then Exchanges(y, image, buffer, ops[1..]) else y
  }

  /** How many pieces the rest of the image takes; an empty image still takes one exchange. */
  function PiecesLeft(left: int, size: int): nat
    requires size > 0
    decreases left
  {
    if left <= size then 1 else 1 + PiecesLeft(left - size, size)
  }

  lemma SmallMultiple(m: int, d: int)
    requires 0 < m && -m < m * d < m
    ensures d == 0
  {
  }

  lemma QuotientUnique(a: int, m: int, q: int, r: int)
    requires 0 < m && a == m * q + r && 0 <= r < m
    ensures a / m == q
  {
    var d := a / m - q;
    assert m * d == m * (a / m) - m * q == r - a % m;
    SmallMultiple(m, d);
  }

  /** The number of pieces is the rounded-up quotient. */
  lemma {:induction false} PiecesAreTheQuotient(left: int, size: int)
    requires 0 < size && 0 < left
    ensures PiecesLeft(left, size) == (left + size - 1) / size
    decreases left
  {
    if left <= size {
      QuotientUnique(left + size - 1, size, 1, left - 1);
    } else {
      PiecesAreTheQuotient(left - size, size);
      var a := left - 1;
      QuotientUnique(a + size, size, a / size + 1, a % size);
    }
  }

  /** The download ends after exactly as many exchanges as there are pieces: then the stored
      bytes are the image, and before that there is more to ask for. */
  lemma {:induction false} DownloadTerminates(x: Session, image: seq<byte>, buffer: seq<byte>,
                                              ops: seq<(Platform, Platform)>)
    requires Downloading(x, image) && |buffer| >= REQUEST_LEN
    requires x.fd.maxXfer > 0 && |ops| <= PiecesLeft(|image| - |x.stored|, x.fd.maxXfer)
    ensures var y := Exchanges(x, image, buffer, ops);
      if |ops| == PiecesLeft(|image| - |x.stored|, x.fd.maxXfer) then Downloaded(y, image) else Downloading(y, image)
    ensures Exchanges(x, image, buffer, ops).fd.comp == x.fd.comp
    decreases |ops|
  {
    hide Exchange, Inv;
    if ops == [] {
    } else {
      var y := Exchange(x, image, buffer, ops[0]);
      ExchangeStoresPiece(x, image, buffer, ops[0]);
      if y.stored != image { DownloadTerminates(y, image, buffer, ops[1..]); }
    }
  }

  // ---- As part of a run ----

  ghost function ExchangeActs(x: Session, image: seq<byte>, buffer: seq<byte>,
                              ops: seq<(Platform, Platform)>): seq<Action>
    requires Downloading(x, image) && |buffer| >= REQUEST_LEN
    decreases |ops|
  {
    if ops == [] then []
    else
      var (asked, answered) := Turns(x, image, buffer, ops[0]);
      var y := Exchange(x, image, buffer, ops[0]);
      [asked, answered] + (if Downloading(y, image) then ExchangeActs(y, image, buffer, ops[1..]) else [])
  }

  lemma ProgressTakesNoAnswer(s: Fd, payload: seq<byte>, ops: Platform)
    requires Inv(s)
    ensures !Progress(s, payload, ops).act.Answered?
  {
  }

  lemma TurnsRun(x: Session, image: seq<byte>, buffer: seq<byte>, ops: (Platform, Platform))
    requires Inv(x.fd) && |x.stored| <= |image| && |buffer| >= REQUEST_LEN
    ensures var (asked, answered) := Turns(x, image, buffer, ops);
      && Legal(x.fd, [asked, answered]) && After(x.fd, [asked, answered]) == Exchange(x, image, buffer, ops).fd
      && !(asked.Answered?)
  {
    hide Progress, HandleResponse, Perform, Inv, Enabled;
    var o := Ask(x, image, buffer, ops.0);
    var platform := Wanting(ops.0, x.stored, image);
    ProgressIsEnabled(x.fd, buffer, platform);
    StepKeepsInv(x.fd, o.act);
    ProgressKeepsLength(x.fd, buffer, platform);
    var (asked, answered) := Turns(x, image, buffer, ops);
    var answer := AgentAnswer(o.payload, image);
    ResponseIsEnabled(Perform(x.fd, asked), answer, Storing(ops.1, x.stored + answer[4..], image));
    ExtendTrace(x.fd, [], asked);
    assert [] + [asked] == [asked];
    ExtendTrace(x.fd, [asked], answered);
    assert [asked] + [answered] == [asked, answered];
    ProgressTakesNoAnswer(x.fd, buffer, platform);
  }

  lemma {:induction false} DeliveredConcat(a: seq<Action>, b: seq<Action>)
    ensures DeliveredIn(a + b) == DeliveredIn(a) + DeliveredIn(b)
    decreases |b|
  {
    hide Delivered;
    if b == [] {
      assert a + b == a;
    } else {
      var k := |b| - 1;
      DeliveredConcat(a, b[..k]);
      assert (a + b)[..|a + b| - 1] == a + b[..k] && (a + b)[|a + b| - 1] == b[k];
      assert DeliveredIn(a + b) == DeliveredIn(a + b[..k]) + Delivered(b[k]);
      assert DeliveredIn(b) == DeliveredIn(b[..k]) + Delivered(b[k]);
    }
  }

  lemma DeliveredInTurns(asked: Action, answered: Action)
    requires !asked.Answered?
    ensures DeliveredIn([asked, answered]) == Delivered(answered)
  {
    assert [asked, answered][..1] == [asked];
    assert [asked][..0] == [];
    assert DeliveredIn([asked]) == [];
  }

  lemma DeliveredNothing()
    ensures DeliveredIn([]) == []
  {
  }

  lemma ImageOf(x: Session, image: seq<byte>)
    requires Downloading(x, image)
    ensures Inv(x.fd) && |x.stored| <= |image|
  {
  }

  /** The exchanges are a run of the device, and what that run delivers is what is stored. */
  lemma {:induction false} ExchangesAreRun(x: Session, image: seq<byte>, buffer: seq<byte>,
                                           ops: seq<(Platform, Platform)>)
    requires Downloading(x, image) && |buffer| >= REQUEST_LEN
    ensures var acts, y := ExchangeActs(x, image, buffer, ops), Exchanges(x, image, buffer, ops);
      && Legal(x.fd, acts) && After(x.fd, acts) == y.fd && y.stored == x.stored + DeliveredIn(acts)
    decreases |ops|
  {
    hide Turns, Inv, Downloading, After, Legal, Perform, Delivered, DeliveredIn;
    DeliveredNothing();
    StartOfTrace(x.fd);
    if ops == [] {
    } else {
      ImageOf(x, image);
      TurnsRun(x, image, buffer, ops[0]);
      var (asked, answered) := Turns(x, image, buffer, ops[0]);
      var y := Exchange(x, image, buffer, ops[0]);
      DeliveredInTurns(asked, answered);
      if Downloading(y, image) {
        ExchangesAreRun(y, image, buffer, ops[1..]);
        var rest := ExchangeActs(y, image, buffer, ops[1..]);
        LegalConcat(x.fd, [asked, answered], rest);
        DeliveredConcat([asked, answered], rest);
      } else {
        assert [asked, answered] + [] == [asked, answered];
      }
    }
  }

  /** An accepted UpdateComponent starts a session with nothing stored. */
  lemma AcceptedStartsSession(s: Fd, store: Action, image: seq<byte>)
    requires Inv(s) && Enabled(s, store) && store.Store? && store.accepted
    requires store.comp.imageSize == Some(|image|) && |image| + MAX_PADDING_SIZE < U32_MODULUS
    ensures Downloading(Session(Perform(s, store), []), image) && Perform(s, store).maxXfer == s.maxXfer
  {
  }

  /** From the initial state: RequestUpdate and the last PassComponentTable lead to where a
      component can be accepted, with the transfer size the platform chose. */
  lemma SetupReachesReadyXfer(s: Fd, now: nat, later: nat, xfer: u32)
    requires IsInitial(s)
    ensures var setup := [Negotiate(now, xfer), LastPassed(later)];
      Legal(s, setup) && After(s, setup).state == ReadyXfer && After(s, setup).maxXfer == xfer
  {
    var first := Negotiate(now, xfer);
    StartOfTrace(s);
    ExtendTrace(s, [], first);
    assert [] + [first] == [first];
    ExtendTrace(s, [first], LastPassed(later));
    assert [first] + [LastPassed(later)] == [first, LastPassed(later)];
  }

  lemma {:induction false} TwoActionsEach(x: Session, image: seq<byte>, buffer: seq<byte>,
                                          ops: seq<(Platform, Platform)>)
    requires Downloading(x, image) && |buffer| >= REQUEST_LEN
    requires x.fd.maxXfer > 0 && |ops| <= PiecesLeft(|image| - |x.stored|, x.fd.maxXfer)
    ensures |ExchangeActs(x, image, buffer, ops)| == 2 * |ops|
    decreases |ops|
  {
    hide Exchange, Turns, Inv;
    if ops == [] {
    } else {
      ExchangeStoresPiece(x, image, buffer, ops[0]);
      var y := Exchange(x, image, buffer, ops[0]);
      if y.stored != image { TwoActionsEach(y, image, buffer, ops[1..]); }
    }
  }

  /** After the last exchange the device reports a successful transfer. */
  lemma ThenTransferComplete(x: Session, image: seq<byte>, buffer: seq<byte>, ops: Platform)
    requires Downloaded(x, image) && |buffer| >= 4
    ensures var o := Progress(x.fd, buffer, ops);
      && o.result == Ok(4) && o.act == ReportTransfer(ops.clock)
      && o.payload[2] == CMD_TRANSFER_COMPLETE && o.payload[3] == RESULT_SUCCESS
  {
  }

  /** End to end: any run of the device that reaches ReadyXfer with a nonzero transfer size goes on,
      through an accepted UpdateComponent and one exchange per piece, as a run that delivers
      exactly the image, after which the device reports a successful transfer. */
  lemma UpdateDelivers(s: Fd, setup: seq<Action>, store: Action, image: seq<byte>, buffer: seq<byte>,
                       ops: seq<(Platform, Platform)>, last: Platform) returns (acts: seq<Action>)
    requires IsInitial(s) && Legal(s, setup) && Enabled(After(s, setup), store) && store.Store? && store.accepted
    requires store.comp.imageSize == Some(|image|) && |image| + MAX_PADDING_SIZE < U32_MODULUS
    requires After(s, setup).maxXfer > 0 && |buffer| >= REQUEST_LEN
    requires |ops| == PiecesLeft(|image|, After(s, setup).maxXfer)
    ensures Legal(s, setup + [store] + acts) && |acts| == 2 * |ops| && DeliveredIn(acts) == image
    ensures var t := After(s, setup + [store] + acts);
      && Inv(t) && Progress(t, buffer, last).act == ReportTransfer(last.clock)
      && Progress(t, buffer, last).result == Ok(4) && |Progress(t, buffer, last).payload| == |buffer|
      && Progress(t, buffer, last).payload[2] == CMD_TRANSFER_COMPLETE
      && Progress(t, buffer, last).payload[3] == RESULT_SUCCESS
  {
    hide After, Legal, Perform, Enabled, Exchanges, ExchangeActs, DeliveredIn, Progress, Inv;
    ReachableInv(s, setup);
    var u := After(s, setup);
    AcceptedStartsSession(u, store, image);
    ExtendTrace(s, setup, store);
    var x := Session(Perform(u, store), []);
    acts := ExchangeActs(x, image, buffer, ops);
    ExchangesAreRun(x, image, buffer, ops);
    LegalConcat(s, setup + [store], acts);
    DownloadTerminates(x, image, buffer, ops);
    TwoActionsEach(x, image, buffer, ops);
    var y := Exchanges(x, image, buffer, ops);
    assert [] + DeliveredIn(acts) == DeliveredIn(acts);
    ThenTransferComplete(y, image, buffer, last);
    ProgressKeepsLength(y.fd, buffer, last);
  }

  /** A platform that negotiates a transfer size of zero never gets a byte of a nonempty image,
      however many exchanges follow. */
  lemma {:induction false} ZeroTransferSizeStalls(x: Session, image: seq<byte>, buffer: seq<byte>,
                                                  ops: seq<(Platform, Platform)>)
    requires Downloading(x, image) && |buffer| >= REQUEST_LEN
    requires x.fd.maxXfer == 0 && image != []
    ensures var y := Exchanges(x, image, buffer, ops); Downloading(y, image) && y.stored == x.stored
    decreases |ops|
  {
    hide Exchange, Inv;
    if ops == [] {
    } else {
      ExchangeStoresPiece(x, image, buffer, ops[0]);
      var y := Exchange(x, image, buffer, ops[0]);
      assert y.stored == x.stored;
      ZeroTransferSizeStalls(y, image, buffer, ops[1..]);
    }
  }

  /** Such a platform gets its first request out exactly when image size plus padding fits a
      u32: for the last 32 sizes the wrapped sum makes every request look out of range. */
  lemma DownloadStartsIff(s: Fd, size: u32, buffer: seq<byte>, ops: Platform)
    requires Inv(s) && s.state == Download && s.req.state == Ready && !s.req.complete
    requires s.comp.imageSize == Some(size) && |buffer| >= REQUEST_LEN
    requires ops.downloadOffsetAndLength == Returns((0, size as nat))
    ensures Progress(s, buffer, ops).result.Ok? <==> size as int + MAX_PADDING_SIZE < U32_MODULUS
  {
  }
}
