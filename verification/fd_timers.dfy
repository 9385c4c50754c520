// The two timers. With a clock that never runs backwards, an unanswered request is
// repeated no sooner than T2 after the previous attempt and only until T1 has passed.
module FdTimers {
  import opened FdState
  import opened FdInvariant

  // ---- Clock readings along a trace ----

  predicate ClockInOrder(now: nat, at: Clock) { now <= at.check <= at.gate <= at.sent <= at.refresh }

  /** The readings of one action are in order and none is earlier than `now`. */
  predicate InOrder(now: nat, a: Action) {
    match a
    case Touch(t) => now <= t
    case CancelTouch(t) => now <= t
    case Negotiate(t, _) => now <= t
    case LastPassed(t) => now <= t
    case Store(t, _, _, _) => now <= t
    case CancelAll(t) => now <= t
    case CancelLost(t) => t.Some? ==> now <= t.value
    case TimedOut(t) => now <= t
    case Answered(t, _, _, _) => now <= t
    case DownloadUnsent(at) => ClockInOrder(now, at)
    case Fetch(at, _, _) => ClockInOrder(now, at)
    case ReportTransfer(at) => ClockInOrder(now, at)
    case Work(at, _, _, _, _) => ClockInOrder(now, at)
    case WorkBroken(at, _, _) => ClockInOrder(now, at)
    case Skip => true
    case ActivateAll => true
    case CancelComponent => true
  }

  /** The latest reading known after an action. */
  function Later(now: nat, a: Action): nat {
    match a
    case Touch(t) => t
    case CancelTouch(t) => t
    case Negotiate(t, _) => t
    case LastPassed(t) => t
    case Store(t, _, _, _) => t
    case CancelAll(t) => t
    case CancelLost(t) => if t.Some? then t.value else now
    case TimedOut(t) => t
    case Answered(t, _, _, _) => t
    case DownloadUnsent(at) => at.refresh
    case Fetch(at, _, _) => at.refresh
    case ReportTransfer(at) => at.refresh
    case Work(at, _, _, _, _) => at.refresh
    case WorkBroken(at, _, _) => at.refresh
    case Skip => now
    case ActivateAll => now
    case CancelComponent => now
  }

  function Now(start: nat, acts: seq<Action>): nat {
    if acts == [] then start else Later(Now(start, acts[..|acts| - 1]), acts[|acts| - 1])
  }

  predicate Monotone(start: nat, acts: seq<Action>) {
    acts != [] ==>
      Monotone(start, acts[..|acts| - 1]) && InOrder(Now(start, acts[..|acts| - 1]), acts[|acts| - 1])
  }

  predicate StampsBy(s: Fd, now: nat) {
    s.t1Stamp <= now && (s.req.sentTime.Some? ==> s.req.sentTime.value <= now)
  }

  lemma StampStep(s: Fd, a: Action, now: nat)
    requires Enabled(s, a) && StampsBy(s, now) && InOrder(now, a)
    ensures now <= Later(now, a) && StampsBy(Perform(s, a), Later(now, a))
  {
  }

  /** No timestamp is ahead of the clock. */
  lemma {:induction false} StampsAreNotAhead(s: Fd, acts: seq<Action>, start: nat)
    requires StampsBy(s, start) && Legal(s, acts) && Monotone(start, acts)
    ensures StampsBy(After(s, acts), Now(start, acts))
  {
    hide Perform, Enabled, InOrder, Later, StampsBy;
    if acts == [] {
    } else {
      var before := acts[..|acts| - 1];
      StampsAreNotAhead(s, before, start);
      StampStep(After(s, before), acts[|acts| - 1], Now(start, before));
    }
  }

  // ---- An outstanding request ----

  function Transmissions(acts: seq<Action>): nat {
    if acts == [] then 0
    else Transmissions(acts[..|acts| - 1]) + (if OnWire(acts[|acts| - 1]) then 1 else 0)
  }

  predicate Waiting(s: Fd) { InPhase(s) && s.req.state == Sent }

  /** CancelUpdate refreshes T1 even where it does not take effect. */
  predicate RefreshedByCancel(a: Action) { a.CancelTouch? || (a.CancelLost? && a.touched.Some?) }

  /** One request stays outstanding: no response to it is accepted and no CancelUpdate comes. */
  predicate Unanswered(s: Fd, acts: seq<Action>) {
    if acts == [] then Waiting(s)
    else
      var a := acts[|acts| - 1];
      Unanswered(s, acts[..|acts| - 1]) && Waiting(After(s, acts)) && !a.Answered? && !RefreshedByCancel(a)
  }

  /** Each transmission read the clock once for its T1 and its T2 check. */
  predicate ReadsClockOnce(acts: seq<Action>) {
    acts != [] ==>
      var a := acts[|acts| - 1];
      ReadsClockOnce(acts[..|acts| - 1]) && (OnWire(a) ==> a.at.check == a.at.gate)
  }

  /** One step of an outstanding request. A transmission comes at least T2 after the previous
      one and reads the clock no later than T1 after the timestamp. */
  lemma UnansweredStep(s: Fd, a: Action, now: nat)
    requires Inv(s) && Enabled(s, a) && Waiting(s) && Waiting(Perform(s, a))
    requires !a.Answered? && !RefreshedByCancel(a)
    requires StampsBy(s, now) && InOrder(now, a)
    ensures var t := Perform(s, a);
      && t.t1Stamp == s.t1Stamp && t.t1Timeout == s.t1Timeout && t.t2Retry == s.t2Retry
      && if OnWire(a) then
           && t.req.sentTime.value >= a.at.gate >= s.req.sentTime.value + s.t2Retry
           && s.req.sentTime.value <= a.at.check <= s.t1Stamp + s.t1Timeout
         else t.req.sentTime == s.req.sentTime
  {
  }

  lemma UnansweredIsWaiting(s: Fd, acts: seq<Action>)
    requires Unanswered(s, acts)
    ensures Waiting(After(s, acts))
  {
  }

  /** After n retransmissions the last one is at least n times T2 after the first attempt. */
  lemma {:induction false} RetriesAreSpaced(s: Fd, acts: seq<Action>, start: nat)
    requires Inv(s) && Legal(s, acts) && Unanswered(s, acts)
    requires StampsBy(s, start) && Monotone(start, acts)
    ensures var t, n := After(s, acts), Transmissions(acts);
      && Inv(t) && Waiting(s) && t.t1Stamp == s.t1Stamp && t.t1Timeout == s.t1Timeout && t.t2Retry == s.t2Retry
      && t.req.sentTime.value >= s.req.sentTime.value + s.t2Retry * n
      && (n > 0 ==> s.req.sentTime.value + s.t2Retry * (n - 1) <= s.t1Stamp + s.t1Timeout)
      && (n > 0 && ReadsClockOnce(acts) ==> s.req.sentTime.value + s.t2Retry * n <= s.t1Stamp + s.t1Timeout)
  {
    hide Perform, Enabled, Inv, InOrder, Later, StampsBy;
    if acts == [] {
    } else {
      var before, a := acts[..|acts| - 1], acts[|acts| - 1];
      var u := After(s, before);
      RetriesAreSpaced(s, before, start);
      StampsAreNotAhead(s, before, start);
      UnansweredIsWaiting(s, before);
      UnansweredStep(u, a, Now(start, before));
      StepKeepsInv(u, a);
      var n := Transmissions(before);
      assert s.t2Retry * (n + 1) == s.t2Retry * n + s.t2Retry;
    }
  }

  lemma QuotientBound(n: nat, t2: nat, t1: nat)
    requires 0 < t2 && t2 * n <= t1
    ensures n <= t1 / t2
  {
    var q := t1 / t2;
    assert t2 * n < t2 * (q + 1);
  }

  lemma StampsInitially(s: Fd)
    requires IsInitial(s)
    ensures StampsBy(s, 0)
  {
  }

  lemma FirstTransmission(s: Fd, a: Action, now: nat)
    requires Enabled(s, a) && OnWire(a) && StampsBy(s, now) && InOrder(now, a)
    ensures var t := Perform(s, a);
      && t.req.sentTime.Some? && t.t1Stamp == s.t1Stamp <= t.req.sentTime.value
      && t.t1Timeout == s.t1Timeout && t.t2Retry == s.t2Retry
  {
  }

  /** From the first transmission on, an unanswered request is repeated at most T1/T2 times,
      and once more if the T1 and the T2 check of a call read the clock separately. */
  lemma RetriesAreBounded(s: Fd, before: seq<Action>, first: Action, quiet: seq<Action>)
    requires IsInitial(s) && Legal(s, before) && Monotone(0, before)
    requires var u := After(s, before);
      && u.req.state == Ready && OnWire(first) && Enabled(u, first) && InOrder(Now(0, before), first)
      && Legal(Perform(u, first), quiet) && Unanswered(Perform(u, first), quiet)
      && Monotone(Later(Now(0, before), first), quiet)
    requires 0 < After(s, before).t2Retry
    ensures var u, n := After(s, before), Transmissions(quiet);
      && n <= u.t1Timeout / u.t2Retry + 1
      && (ReadsClockOnce(quiet) ==> n <= u.t1Timeout / u.t2Retry)
  {
    hide Perform, Enabled, Inv, InOrder, Later, StampsBy, Legal, Monotone, Unanswered, Transmissions, ReadsClockOnce;
    var u := After(s, before);
    var v := Perform(u, first);
    var n := Transmissions(quiet);
    ReachableInv(s, before);
    StampsInitially(s);
    StampsAreNotAhead(s, before, 0);
    StepKeepsInv(u, first);
    StampStep(u, first, Now(0, before));
    RetriesAreSpaced(v, quiet, Later(Now(0, before), first));
    FirstTransmission(u, first, Now(0, before));
    if n > 0 {
      QuotientBound(n - 1, u.t2Retry, u.t1Timeout);
      if ReadsClockOnce(quiet) { QuotientBound(n, u.t2Retry, u.t1Timeout); }
    }
  }
}
