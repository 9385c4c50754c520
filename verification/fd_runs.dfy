// Theorems over every run of the firmware device: what must have happened before the
// platform is asked to verify or apply an image and before a component is finished, and
// which image bytes are asked for and delivered.
module FdRuns {
  import opened Bytes
  import opened FdState
  import opened FdInvariant

  // ---- The update pipeline ----

  predicate Accepts(a: Action, c: Component, flags: u32) {
    a.Store? && a.accepted && a.comp == c && a.flags == flags
  }

  /** `download_fw_data` succeeded and `is_download_complete` said so. */
  predicate Downloads(a: Action, c: Component) {
    && a.Answered? && a.answer.Data? && a.answer.comp == c
    && a.answer.outcome == Returns(RESULT_SUCCESS) && a.answer.finished
  }

  /** `verify` or `apply` was called on `c` and succeeded at 100 percent or more. */
  predicate Completes(a: Action, during: DeviceState, c: Component) {
    && a.Work? && a.during == during && a.worked == c
    && a.call.Some? && a.call.value.0 == RESULT_SUCCESS && a.call.value.1 >= 100
  }

  predicate Milestone(a: Action, k: nat, c: Component, flags: u32) {
    match k
    case 0 => Accepts(a, c, flags)
    case 1 => Downloads(a, c)
    case 2 => Completes(a, Verify, c)
    case 3 => Completes(a, Apply, c)
    case _ => false
  }

  /** Nothing by which the device starts or ends an update. */
  predicate Uninterrupting(a: Action) { !a.Store? && !IsCancel(a) && !a.TimedOut? }

  /** Actions during which the platform's cancel callback succeeded. */
  predicate PlatformCancels(a: Action) { a == CancelComponent || a.CancelAll? || a.CancelLost? || a.TimedOut? }

  /** `at` lists where in the trace the first |at| milestones of `c` happened, in order, with
      nothing after the first of them interrupting the update. */
  ghost predicate Pipeline(acts: seq<Action>, at: seq<nat>, c: Component, flags: u32) {
    && 0 < |at|
    && (forall k :: 0 <= k < |at| ==> at[k] < |acts| && Milestone(acts[at[k]], k, c, flags))
    && (forall k :: 0 < k < |at| ==> at[k - 1] < at[k])
    && (forall i :: at[0] < i < |acts| ==> Uninterrupting(acts[i]))
  }

  /** How many milestones a state needs behind it. */
  function MilestonesBehind(s: Fd): nat {
    var passed := s.req.complete && s.req.result == Some(RESULT_SUCCESS);
    match s.state
    case Download => if passed then 2 else 1
    case Verify => if passed then 3 else 2
    case Apply => if passed then 4 else 3
    case _ => 0
  }

  lemma PipelineGrows(acts: seq<Action>, a: Action, at: seq<nat>, c: Component, flags: u32)
    requires Pipeline(acts, at, c, flags) && Uninterrupting(a)
    ensures Pipeline(acts + [a], at, c, flags)
    ensures Milestone(a, |at|, c, flags) ==> Pipeline(acts + [a], at + [|acts|], c, flags)
  {
  }

  lemma MilestoneStep(s: Fd, a: Action)
    requires Inv(s) && Enabled(s, a) && InPhase(Perform(s, a))
    ensures var t := Perform(s, a);
      if !InPhase(s) then Accepts(a, t.comp, t.flags) && MilestonesBehind(t) == 1
      else
        && t.comp == s.comp && t.flags == s.flags && Uninterrupting(a)
        && (MilestonesBehind(t) <= MilestonesBehind(s)
            || (MilestonesBehind(t) == MilestonesBehind(s) + 1 && Milestone(a, MilestonesBehind(s), s.comp, s.flags)))
  {
  }

  /** In every run, a state in one of the three phases has its milestones behind it. */
  lemma {:induction false} PipelineOf(s: Fd, acts: seq<Action>) returns (at: seq<nat>)
    requires IsInitial(s) && Legal(s, acts) && InPhase(After(s, acts))
    ensures |at| == MilestonesBehind(After(s, acts))
    ensures Pipeline(acts, at, After(s, acts).comp, After(s, acts).flags)
  {
    hide Perform, Enabled, Inv;
    if acts == [] {
      assert false;
    } else {
      var before, a := acts[..|acts| - 1], acts[|acts| - 1];
      var u, t := After(s, before), After(s, acts);
      ReachableInv(s, before);
      MilestoneStep(u, a);
      assert acts == before + [a];
      if InPhase(u) {
        at := PipelineOf(s, before);
        PipelineGrows(before, a, at, u.comp, u.flags);
        if MilestonesBehind(t) > |at| {
          at := at + [|before|];
        } else {
          at := at[..MilestonesBehind(t)];
        }
      } else {
        at := [|before|];
      }
    }
  }

  /** A run finishes a component only after downloading, verifying and applying it: the step
      from Apply back to ReadyXfer on an ApplyComplete answer is preceded, since the accepted
      UpdateComponent of that component, by a download reported complete, a successful verify
      and a successful apply, in this order, all on the same component. In between the device
      neither starts nor ends an update. The platform may have been told to cancel only by a
      cancel command that failed after its callback. */
  lemma FinishedMeansDone(s: Fd, acts: seq<Action>, n: nat) returns (at: seq<nat>)
    requires IsInitial(s) && Legal(s, acts) && n < |acts|
    requires After(s, acts[..n]).state == Apply && After(s, acts[..n + 1]).state == ReadyXfer
    requires acts[n].Answered?
    ensures |at| == 4 && acts[n].answer == Acknowledged && acts[n].command == CMD_APPLY_COMPLETE
    ensures at[0] < at[1] < at[2] < at[3] < n
    ensures var c, flags := After(s, acts[..n]).comp, After(s, acts[..n]).flags;
      && Accepts(acts[at[0]], c, flags)
      && Downloads(acts[at[1]], c)
      && Completes(acts[at[2]], Verify, c)
      && Completes(acts[at[3]], Apply, c)
    ensures forall i :: at[0] < i < n ==> Uninterrupting(acts[i]) && (PlatformCancels(acts[i]) ==> acts[i].CancelLost?)
  {
    StepAt(s, acts, n);
    ReachableInv(s, acts[..n]);
    at := PipelineOf(s, acts[..n]);
    assert Milestone(acts[..n][at[0]], 0, After(s, acts[..n]).comp, After(s, acts[..n]).flags);
    assert Milestone(acts[..n][at[1]], 1, After(s, acts[..n]).comp, After(s, acts[..n]).flags);
    assert Milestone(acts[..n][at[2]], 2, After(s, acts[..n]).comp, After(s, acts[..n]).flags);
    assert Milestone(acts[..n][at[3]], 3, After(s, acts[..n]).comp, After(s, acts[..n]).flags);
    forall i | at[0] < i < n ensures Uninterrupting(acts[i]) {
      assert acts[..n][i] == acts[i];
    }
  }

  /** A platform call that works on an image, whatever it came back with. */
  predicate WorksOn(a: Action, during: DeviceState) {
    (a.Work? && a.during == during && a.call.Some?) || (a.WorkBroken? && a.during == during)
  }

  lemma WorkBeginsFresh(s: Fd, before: seq<Action>, a: Action)
    requires IsInitial(s) && Legal(s, before) && Enabled(After(s, before), a)
    requires WorksOn(a, Verify) || WorksOn(a, Apply)
    ensures !After(s, before).req.complete && After(s, before).comp == a.worked
  {
    hide After, Legal;
  }

  /** In every run, each call of the platform's verify gets the component that was accepted and
      downloaded, and each call of its apply one that was also verified, whether the call
      succeeds or not. */
  lemma WorkIsGuarded(s: Fd, acts: seq<Action>, n: nat, during: DeviceState) returns (at: seq<nat>)
    requires IsInitial(s) && Legal(s, acts) && n < |acts| && WorksOn(acts[n], during)
    ensures during in {Verify, Apply} && |at| == if during == Verify then 2 else 3
    ensures Pipeline(acts[..n], at, acts[n].worked, After(s, acts[..n]).flags)
  {
    StepAt(s, acts, n);
    at := PipelineOf(s, acts[..n]);
    WorkBeginsFresh(s, acts[..n], acts[n]);
  }

  // ---- A lost cancel ----

  /** A cancel command that fails after its callback changes nothing but the T1 timestamp. */
  lemma LostCancelGoesOn(s: Fd, touched: Option<nat>)
    ensures Perform(s, CancelLost(touched)) == s.(t1Stamp := if touched.Some? then touched.value else s.t1Stamp)
  {
  }

  // ---- Which image bytes are requested and delivered ----

  /** The chunk put on the wire by a Fetch. */
  function ChunkOf(s: Fd, a: Action): (u32, u32)
    requires a.Fetch? && Enabled(s, a)
  {
    DownloadChunk(s, a.wantedOffset, a.wantedLength).value
  }

  function ImageSize(s: Fd): int { if s.comp.imageSize.Some? then s.comp.imageSize.value else 0 }

  /** Every RequestFirmwareData starts inside the image and fits the negotiated size. It ends
      inside the padding exactly when one of three things a platform can check holds: the range
      it asked for does not wrap a u32, the image is so large that the limit itself wraps, or a
      full transfer from that offset would not overrun either. */
  lemma ChunkBounds(s: Fd, a: Action)
    requires a.Fetch? && Enabled(s, a)
    ensures var (offset, length) := ChunkOf(s, a);
      var limit := ImageSize(s) + MAX_PADDING_SIZE;
      && offset == a.wantedOffset && offset as int <= ImageSize(s)
      && length <= s.maxXfer && length <= a.wantedLength
      && (offset as int + length as int <= limit
          <==> || a.wantedOffset as int + a.wantedLength as int < U32_MODULUS
               || limit >= U32_MODULUS
               || a.wantedOffset as int + s.maxXfer as int <= limit)
  {
  }

  /** An outstanding RequestFirmwareData is the last Fetch, and the phase record holds its chunk. */
  lemma {:induction false} LastFetch(s: Fd, acts: seq<Action>) returns (m: nat)
    requires IsInitial(s) && Legal(s, acts)
    requires var t := After(s, acts); t.state == Download && t.req.state == Sent && !t.req.complete
    ensures m < |acts| && acts[m].Fetch? && Enabled(After(s, acts[..m]), acts[m])
    ensures var (offset, length) := ChunkOf(After(s, acts[..m]), acts[m]);
      After(s, acts).phase == DownloadPhase(offset, length)
    ensures forall i :: m < i < |acts| ==> !acts[i].Fetch?
  {
    var k := |acts| - 1;
    assert acts != [];
    var before, a := acts[..k], acts[k];
    ReachableInv(s, before);
    if a.Fetch? {
      m := k;
    } else {
      m := LastFetch(s, before);
      assert acts[..m] == before[..m];
    }
  }

  /** Each `download_fw_data` call gets the offset of the most recently encoded request and
      exactly the number of bytes it asked for. */
  lemma DeliveredAsRequested(s: Fd, acts: seq<Action>, n: nat) returns (m: nat)
    requires IsInitial(s) && Legal(s, acts) && n < |acts|
    requires acts[n].Answered? && acts[n].answer.Data?
    ensures m < n && acts[m].Fetch? && Enabled(After(s, acts[..m]), acts[m])
    ensures ChunkOf(After(s, acts[..m]), acts[m]) == (acts[n].answer.offset, |acts[n].answer.data|)
    ensures forall i :: m < i < n ==> !acts[i].Fetch?
  {
    StepAt(s, acts, n);
    m := LastFetch(s, acts[..n]);
    assert acts[..n][..m] == acts[..m];
    forall i | m < i < n ensures !acts[i].Fetch? { assert acts[..n][i] == acts[i]; }
  }

  // ---- How often bytes are delivered ----

  predicate IsDelivery(a: Action) { a.Answered? && a.answer.Data? }

  /** A RequestFirmwareData is outstanding. */
  predicate AwaitsData(s: Fd) { s.state == Download && s.req.state == Sent && !s.req.complete }

  lemma OnlyFetchAwaitsData(s: Fd, a: Action)
    requires Inv(s) && Enabled(s, a) && !AwaitsData(s) && !a.Fetch?
    ensures !AwaitsData(Perform(s, a)) && !IsDelivery(a)
  {
  }

  lemma DeliverySettles(s: Fd, a: Action)
    requires Enabled(s, a) && IsDelivery(a) && a.answer.outcome.Returns?
    ensures !AwaitsData(Perform(s, a))
  {
  }

  lemma {:induction false} NothingAwaited(s: Fd, acts: seq<Action>, n: nat, m: nat)
    requires IsInitial(s) && Legal(s, acts) && n < m <= |acts|
    requires IsDelivery(acts[n]) && acts[n].answer.outcome.Returns?
    requires forall i :: n < i < m ==> !acts[i].Fetch?
    ensures !AwaitsData(After(s, acts[..m]))
    decreases m
  {
    hide Perform, Enabled, Inv, AwaitsData, IsDelivery, After, Legal;
    StepAt(s, acts, m - 1);
    if m == n + 1 {
      DeliverySettles(After(s, acts[..n]), acts[n]);
    } else {
      NothingAwaited(s, acts, n, m - 1);
      ReachableInv(s, acts[..m - 1]);
      OnlyFetchAwaitsData(After(s, acts[..m - 1]), acts[m - 1]);
    }
  }

  /** In every run, what the platform's callback has accepted or rejected is not delivered again:
      no delivery follows before the next RequestFirmwareData. */
  lemma DeliveredOnce(s: Fd, acts: seq<Action>, n: nat, m: nat)
    requires IsInitial(s) && Legal(s, acts) && n < m < |acts|
    requires IsDelivery(acts[n]) && acts[n].answer.outcome.Returns?
    requires forall i :: n < i < m ==> !acts[i].Fetch?
    ensures !IsDelivery(acts[m])
  {
    if IsDelivery(acts[m]) {
      NothingAwaited(s, acts, n, m);
      StepAt(s, acts, m);
      ReachableInv(s, acts[..m]);
      if !acts[m].Fetch? { OnlyFetchAwaitsData(After(s, acts[..m]), acts[m]); }
    }
  }

  /** A delivery can be followed at once by another exactly when its callback failed. Then only
      the T1 timestamp has changed and the very same delivery can happen again. */
  lemma RedeliveredIff(s: Fd, a: Action)
    requires Inv(s) && Enabled(s, a) && IsDelivery(a)
    ensures (exists b :: IsDelivery(b) && Enabled(Perform(s, a), b)) <==> a.answer.outcome.Fails?
    ensures a.answer.outcome.Fails? ==> Perform(s, a) == s.(t1Stamp := a.now) && Enabled(Perform(s, a), a)
  {
    if a.answer.outcome.Fails? {
      assert IsDelivery(a) && Enabled(Perform(s, a), a);
    }
  }
}
