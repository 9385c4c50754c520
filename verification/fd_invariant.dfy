// What every reachable state of the firmware device satisfies.
module FdInvariant {
  import opened Bytes
  import opened FdState

  predicate PhaseMatches(s: Fd) {
    match s.state
    case Download => s.phase.DownloadPhase?
    case Verify => s.phase.VerifyPhase? && s.phase.progress <= 101
    case Apply => s.phase.ApplyPhase? && s.phase.progress <= 101
    case _ => true
  }

  /** The request record while the device drives the update. */
  predicate ReqMatches(s: Fd)
    requires InPhase(s)
  {
    && s.req.state != Unused
    && (s.req.complete ==> s.req.result.Some? && IsResultOf(s.state, s.req.result.value))
    && (s.req.state == Failed ==> s.req.complete && s.req.result != Some(RESULT_SUCCESS))
    && (s.req.state == Ready && s.state != Download ==> !s.req.complete)
    && (s.req.state == Sent ==>
          s.req.command == Some(if s.req.complete then CompleteCommand(s.state) else CMD_REQUEST_FW_DATA))
    && (s.req.state == Sent && s.state != Download ==> s.req.complete)
  }

  predicate SentIsFilledIn(s: Fd) {
    && (s.req.state == Sent ==> s.req.instanceId.Some? && s.req.command.Some? && s.req.sentTime.Some?)
    && (s.req.instanceId.Some? ==> s.req.instanceId.value as int < INSTANCE_ID_COUNT)
  }

  /** The state changes an operation can make, ActivateFirmware's double step aside. */
  predicate Edge(a: DeviceState, b: DeviceState) {
    match a
    case Idle => b == LearnComponents
    case LearnComponents => b == ReadyXfer
    case ReadyXfer => b == Download
    case Download => b in {Verify, ReadyXfer, Idle}
    case Verify => b in {Apply, ReadyXfer, Idle}
    case Apply => b in {ReadyXfer, Idle}
    case Activate => b == Idle
  }

  /** The reason recorded in Idle, given the state the device came from. */
  predicate ReasonFits(prev: DeviceState, reason: Option<Reason>) {
    match prev
    case Idle => reason == None
    case Activate => reason == Some(Activated)
    case Download => reason in {Some(Cancelled), Some(DownloadTimeout)}
    case Verify => reason in {Some(Cancelled), Some(VerifyTimeout)}
    case Apply => reason in {Some(Cancelled), Some(ApplyTimeout)}
    case _ => false
  }

  predicate HistoryFits(s: Fd) {
    && s.state != Activate
    && (Edge(s.prev, s.state) || (s.prev == Idle && s.state == Idle))
    && (s.state == Idle ==> ReasonFits(s.prev, s.reason))
    && s.reason !in {Some(LearnComponentTimeout), Some(ReadyXferTimeout)}
  }

  /** The inductive invariant. */
  predicate Inv(s: Fd) {
    HistoryFits(s) && SentIsFilledIn(s) && PhaseMatches(s) && (InPhase(s) ==> ReqMatches(s))
  }

  lemma InitiallyInv(s: Fd)
    requires IsInitial(s)
    ensures Inv(s)
  {
  }

  lemma StepKeepsInv(s: Fd, a: Action)
    requires Inv(s) && Enabled(s, a)
    ensures Inv(Perform(s, a))
  {
  }

  lemma {:induction false} ReachableInv(s: Fd, acts: seq<Action>)
    requires IsInitial(s) && Legal(s, acts)
    ensures Inv(After(s, acts))
  {
    if acts == [] {
      InitiallyInv(s);
    } else {
      var before := acts[..|acts| - 1];
      ReachableInv(s, before);
      StepKeepsInv(After(s, before), acts[|acts| - 1]);
    }
  }

  /** Operations move the state along the fixed edges; ActivateFirmware goes from ReadyXfer
      through Activate to Idle in one step, so Activate is only ever a previous state. */
  lemma StateEdges(s: Fd, acts: seq<Action>, n: nat)
    requires IsInitial(s) && Legal(s, acts) && n < |acts|
    ensures var u, v := After(s, acts[..n]), After(s, acts[..n + 1]);
      && u.state != Activate && v.state != Activate
      && (|| (u.state == v.state && u.prev == v.prev)
          || (Edge(u.state, v.state) && v.prev == u.state)
          || (acts[n] == ActivateAll && u.state == ReadyXfer && v.state == Idle && v.prev == Activate))
  {
    StepAt(s, acts, n);
    ReachableInv(s, acts[..n]);
    StepKeepsInv(After(s, acts[..n]), acts[n]);
  }

  /** LearnComponents can be left only by passing the last component, and ReadyXfer only
      by an accepted UpdateComponent or by activation: neither CancelUpdate nor T1 applies. */
  lemma WaitingStatesAreSticky(s: Fd, a: Action)
    requires Inv(s) && Enabled(s, a)
    requires Perform(s, a).state != s.state
    ensures s.state == LearnComponents ==> a.LastPassed?
    ensures s.state == ReadyXfer ==> a == ActivateAll || (a.Store? && a.accepted)
  {
  }

  // ---- A failed request waits for the update agent to cancel ----

  predicate IsCancel(a: Action) { a == CancelComponent || a.CancelAll? }

  lemma FailedIsStable(s: Fd, a: Action)
    requires Inv(s) && InPhase(s) && s.req.state == Failed && Enabled(s, a)
    ensures IsCancel(a) || Perform(s, a) == s.(t1Stamp := Perform(s, a).t1Stamp)
    ensures Cancellable(s)
  {
  }

  lemma {:induction false} FailedStaysFailed(s: Fd, acts: seq<Action>)
    requires Inv(s) && InPhase(s) && s.req.state == Failed && Legal(s, acts)
    requires forall a :: a in acts ==> !IsCancel(a)
    ensures After(s, acts) == s.(t1Stamp := After(s, acts).t1Stamp)
  {
    if acts == [] {
    } else {
      var before := acts[..|acts| - 1];
      FailedStaysFailed(s, before);
      assert acts[|acts| - 1] in acts;
    }
  }

  /** Outside the three phases a late response changes at most the T1 timestamp. */
  lemma LateAnswer(s: Fd, a: Action)
    requires Inv(s) && !InPhase(s) && Enabled(s, a) && a.Answered?
    ensures Perform(s, a) == s.(t1Stamp := a.now)
  {
  }

  /** The component and flags under update are fixed from acceptance to the end of Apply. */
  lemma ComponentIsFixed(s: Fd, a: Action)
    requires Inv(s) && InPhase(s) && Enabled(s, a)
    ensures Perform(s, a).comp == s.comp && Perform(s, a).flags == s.flags && Perform(s, a).maxXfer == s.maxXfer
  {
  }
}
