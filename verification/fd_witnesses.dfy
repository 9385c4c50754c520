// Runs of handler calls in which the device does what one would not expect of it.
module FdWitnesses {
  import opened Bytes
  import opened Base
  import opened FirmwareParameters
  import opened FdState
  import opened FdInvariant
  import opened FdHandlers
  import opened FdOutcomes
  import opened FdRuns
  import opened FdIds
  import opened FdDownload
  import opened FdCalls
  import D = Descriptors

  const STILL := Clock(0, 0, 0, 0)

  /** A platform that grants everything, with a clock that stands still. */
  function Willing(xfer: u32): Platform {
    Platform(
      Returns((seq(MAX_DESCRIPTORS_COUNT, _ => D.EMPTY_DESCRIPTOR), 1)), Returns(DEFAULT_PARAMS), Returns(xfer as nat),
      Returns(COMP_CAN_BE_UPDATED), Returns((0, 0)), Returns(RESULT_SUCCESS), true, Returns(0),
      Returns((RESULT_SUCCESS, 100)), Returns((RESULT_SUCCESS, 100)), Returns((SUCCESS, 0)), Returns(()),
      Returns(PendingNotRequired), Returns((false, 0)), Returns(true), STILL)
  }

  /** The plainest component with an image of this size. */
  function Plain(size: u32): (c: Component)
    ensures Describable(c)
  {
    NO_COMPONENT.(imageSize := Some(size), optionFlags := Some(0))
  }

  // ---- A chunk past the padding ----

  function WantingRange(offset: u32, length: u32): Platform {
    Willing(512).(downloadOffsetAndLength := Returns((offset as nat, length as nat)))
  }

  lemma InitiallyServes(s: Fd)
    requires IsInitial(s)
    ensures Inv(s) && s.state == Idle
  {
  }

  /** Four calls from the initial state, the last of which sends a request that runs past the
      image and its padding, because the end of the range the platform wants wraps. */
  lemma WrappedChunkEscapes(s: Fd, buffer: seq<byte>) returns (acts: seq<Action>, calls: seq<Call>)
    requires IsInitial(s) && |buffer| >= REQUEST_LEN
    ensures Serves(s, acts, calls) && |acts| == 4
    ensures acts[3].Fetch? && Enabled(After(s, acts[..3]), acts[3])
    ensures var (offset, length) := ChunkOf(After(s, acts[..3]), acts[3]);
      offset as int + length as int > ImageSize(After(s, acts[..3])) + MAX_PADDING_SIZE
  {
    hide Serves, After, Inv, Progress, Perform;
    InitiallyServes(s);
    var setup, setupCalls := SetupActs(512, Plain(100), Willing(512)), SetupCalls(Plain(100), Willing(512));
    SetupIsServed(s, 512, Plain(100), Willing(512));
    var u := After(s, setup);
    var ops := WantingRange(50, 0xFFFF_FFFF);
    ProgressFetches(u, buffer, ops, 50, 0xFFFF_FFFF, 512);
    var call := Progresses(buffer, ops);
    ServesOneMore(s, setup, setupCalls, call);
    acts, calls := setup + [ActOf(u, call)], setupCalls + [call];
    assert acts[..3] == setup;
  }

  // ---- A lost cancel ----

  const CANCEL_COMPONENT: seq<byte> := [0x80, TYPE_FW_UPDATE, 0x1C]

  lemma LostCancelActs(s: Fd, ops: Platform)
    requires s.state == Download && ops.cancelUpdateComponent.Returns?
    ensures Command(0x1C, s, CANCEL_COMPONENT, ops).act == CancelLost(None)
  {
  }

  /** For every image: the platform is told to cancel the component right after it was accepted,
      the reply does not fit the buffer, and the update goes on until the component is finished. */
  lemma CancelledComponentCanFinish(s: Fd, image: seq<byte>, buffer: seq<byte>, xfer: u32,
                                    ops: seq<(Platform, Platform)>)
    returns (acts: seq<Action>, calls: seq<Call>)
    requires IsInitial(s) && 0 < xfer && |image| + MAX_PADDING_SIZE < U32_MODULUS && |buffer| >= REQUEST_LEN
    requires |ops| == PiecesLeft(|image|, xfer)
    ensures Serves(s, acts, calls) && Legal(s, acts) && |acts| == 4 + 2 * |ops| + 6
    ensures var n := |acts| - 1;
      && Accepts(acts[2], Plain(|image|), 0) && PlatformCancels(acts[3])
      && acts[n].Answered? && After(s, acts[..n]).state == Apply && After(s, acts).state == ReadyXfer
      && After(s, acts).comp == Plain(|image|)
  {
    hide Serves, After, Legal, Inv, Command;
    InitiallyServes(s);
    var ready := Willing(xfer);
    var setup, setupCalls := SetupActs(xfer, Plain(|image|), ready), SetupCalls(Plain(|image|), ready);
    SetupIsServed(s, xfer, Plain(|image|), ready);
    var u := After(s, setup);
    LostCancelActs(u, ready);
    LostCancelGoesOn(u, None);
    var cancel := Asks(0x1C, CANCEL_COMPONENT, ready);
    ServesOneMore(s, setup, setupCalls, cancel);
    var front, frontCalls := setup + [CancelLost(None)], setupCalls + [cancel];
    var rest, restCalls := DownloadAndFinish(After(s, front), image, buffer, ops, ready);
    ServesConcat(s, front, frontCalls, rest, restCalls);
    FrontOf(s, front, frontCalls, rest, restCalls);
    acts, calls := front + rest, frontCalls + restCalls;
    ServedIsLegal(s, acts, calls);
  }

  // ---- An answer to a request that never went out ----

  function Failing(): Platform { Willing(512).(downloadOffsetAndLength := Fails(FwDownloadError)) }

  lemma UnsentActs(s: Fd, buffer: seq<byte>)
    requires Inv(s) && s.state == Download && !s.req.complete && s.req.state == Sent && s.req.sentTime == Some(0)
    requires s.t2Retry == 0 && s.t1Stamp == 0
    ensures Progress(s, buffer, Failing()).act == DownloadUnsent(STILL)
  {
  }

  /** Asks the device to retry, which it may do at once. */
  const RETRY: seq<byte> := [2, TYPE_FW_UPDATE, CMD_REQUEST_FW_DATA, RETRY_REQUEST_FW_DATA]

  lemma RetryActs(s: Fd, id: byte)
    requires Inv(s) && s.state == Download && Asked(s.req, 2) && id in {1, 2}
    ensures HandleResponse(s, RETRY[0 := id], Willing(512))
      == if id == 2 then (Ok(()), Answered(0, 2, CMD_REQUEST_FW_DATA, NoEffect)) else (Err(FdInitiatorModeError), Skip)
  {
  }

  lemma FetchedAt(s: Fd, a: Action)
    requires s.state == Download && s.req == FreshReq(Ready) && s.t1Stamp == 0 && a == Fetch(STILL, 0, 100)
    requires DownloadChunk(s, 0, 100).Some?
    ensures var t := Perform(s, a);
      && t.state == Download && Asked(t.req, 1) && t.req.sentTime == Some(0) && t.t2Retry == s.t2Retry && t.t1Stamp == 0
  {
  }

  lemma AllocatedAfter(s: Fd)
    requires Asked(s.req, 1)
    ensures Asked(Perform(s, DownloadUnsent(STILL)).req, 2) && Perform(s, DownloadUnsent(STILL)).state == s.state
  {
  }

  lemma SentThenUnsent(s: Fd, acts: seq<Action>, fetch: Action)
    requires fetch.Fetch? && After(s, acts + [fetch]).req.instanceId == Some(1)
    ensures IdSent(s, acts + [fetch] + [DownloadUnsent(STILL)]) == Some(1)
    ensures UnsentSince(acts + [fetch] + [DownloadUnsent(STILL)]) == 1
  {
    assert (acts + [fetch] + [DownloadUnsent(STILL)])[..|acts| + 1] == acts + [fetch];
  }

  /** Six calls, on a device without a retry delay: a request goes out under id 1, a retry fails
      before it is sent, and from then on the device takes a response under id 2, which it never
      sent, and refuses the one under id 1. */
  lemma UnsentIdIsAccepted(s: Fd, buffer: seq<byte>) returns (acts: seq<Action>, calls: seq<Call>)
    requires IsInitial(s) && s.t2Retry == 0 && |buffer| >= REQUEST_LEN
    ensures Serves(s, acts, calls) && |acts| == 6
    ensures IdSent(s, acts[..5]) == Some(1) && UnsentSince(acts[..5]) == 1
    ensures acts[5].Answered? && acts[5].instanceId == 2
    ensures Inv(After(s, acts[..5]))
    ensures HandleResponse(After(s, acts[..5]), RETRY[0 := 1], Willing(512)) == (Err(FdInitiatorModeError), Skip)
  {
    hide Serves, After, Inv, Progress, HandleResponse, Perform;
    InitiallyServes(s);
    var setup, setupCalls := SetupActs(512, Plain(100), Willing(512)), SetupCalls(Plain(100), Willing(512));
    SetupIsServed(s, 512, Plain(100), Willing(512));
    var u := After(s, setup);
    var fetch, retry := Progresses(buffer, WantingRange(0, 100)), Progresses(buffer, Failing());
    ProgressFetches(u, buffer, WantingRange(0, 100), 0, 100, 100);
    ServesOneMore(s, setup, setupCalls, fetch);
    var acts4, calls4 := setup + [ActOf(u, fetch)], setupCalls + [fetch];
    FetchedAt(u, ActOf(u, fetch));
    UnsentActs(After(s, acts4), buffer);
    ServesOneMore(s, acts4, calls4, retry);
    var acts5, calls5 := acts4 + [DownloadUnsent(STILL)], calls4 + [retry];
    AllocatedAfter(After(s, acts4));
    RetryActs(After(s, acts5), 1);
    RetryActs(After(s, acts5), 2);
    var answer := Responds(RETRY, Willing(512));
    assert RETRY[0 := 2] == RETRY;
    ServesOneMore(s, acts5, calls5, answer);
    acts, calls := acts5 + [ActOf(After(s, acts5), answer)], calls5 + [answer];
    assert acts[..5] == acts5;
    SentThenUnsent(s, setup, ActOf(u, fetch));
  }
}
