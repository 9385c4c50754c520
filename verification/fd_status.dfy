// What GetStatus tells: the progress is the one the platform last reported in the phase,
// and the auxiliary state says what the request record is doing.
module FdStatus {
  import opened Bytes
  import opened FdState
  import opened FdInvariant
  import opened FdHandlers

  /** The percentage of the last verify or apply call since the phase was entered, 0 before any. */
  function LastReported(s: Fd, acts: seq<Action>): byte {
    if acts == [] then 0
    else
      var before, a := acts[..|acts| - 1], acts[|acts| - 1];
      if After(s, before).state != After(s, acts).state then 0
      else if a.Work? && a.call.Some? then a.call.value.1
      else LastReported(s, before)
  }

  predicate Shows(s: Fd, percent: byte) {
    match s.state
    case Verify => s.phase == VerifyPhase(percent)
    case Apply => s.phase == ApplyPhase(percent)
    case _ => true
  }

  lemma ShowsStep(s: Fd, a: Action, percent: byte)
    requires Inv(s) && Enabled(s, a) && Shows(s, percent)
    ensures var t := Perform(s, a);
      Shows(t, if s.state != t.state then 0 else if a.Work? && a.call.Some? then a.call.value.1 else percent)
  {
  }

  lemma InitiallyShows(s: Fd)
    requires IsInitial(s)
    ensures Shows(s, 0)
  {
  }

  lemma {:induction false} PhaseShowsLastReported(s: Fd, acts: seq<Action>)
    requires IsInitial(s) && Legal(s, acts)
    ensures Shows(After(s, acts), LastReported(s, acts))
  {
    hide Perform, Enabled, Inv, Shows;
    if acts == [] {
      InitiallyShows(s);
    } else {
      var before := acts[..|acts| - 1];
      ReachableInv(s, before);
      PhaseShowsLastReported(s, before);
      ShowsStep(After(s, before), acts[|acts| - 1], LastReported(s, before));
    }
  }

  /** In every run GetStatus reports: in Verify and Apply the percentage the platform gave last in
      that phase, retries and failed calls aside; in Download what the platform says now; and
      "not supported" everywhere else. It never exceeds 101. */
  lemma ProgressIsTheLastReported(s: Fd, acts: seq<Action>, ops: Platform)
    requires IsInitial(s) && Legal(s, acts)
    ensures var t, p := After(s, acts), ProgressOf(After(s, acts), ops);
      && p <= 101
      && (t.state in {Verify, Apply} ==> p == LastReported(s, acts))
      && (t.state == Download ==> p == (if ops.downloadProgress.Returns? then ops.downloadProgress.value else 101))
      && (!InPhase(t) ==> p == 101)
  {
    hide After, Legal, LastReported;
    ReachableInv(s, acts);
    PhaseShowsLastReported(s, acts);
  }

  /** In every reachable state the auxiliary state and status tell the request record apart: failed,
      unused, complete and about to be reported, or in progress. A failed request in a phase shows
      the result code that failed it, which is never success; all others show zero. */
  lemma AuxStateTellsTheRequest(s: Fd, acts: seq<Action>)
    requires IsInitial(s) && Legal(s, acts)
    ensures var t := After(s, acts);
      var (aux, status) := AuxState(t);
      && (aux == 2 <==> t.req.state == Failed)
      && (aux == 3 <==> t.req.state == Unused)
      && (aux == 1 <==> t.req.state == Ready && t.req.complete)
      && (InPhase(t) ==> aux != 3)
      && (aux != 2 ==> status == 0)
      && (InPhase(t) && aux == 2 ==> t.req.result == Some(status) && status != RESULT_SUCCESS)
  {
    hide After, Legal;
    ReachableInv(s, acts);
  }
}
