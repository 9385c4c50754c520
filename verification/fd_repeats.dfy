// Repeated completion reports: when a successful verification or application is kept, and
// when its repetition has spoiled it.
module FdRepeats {
  import opened Bytes
  import opened FdState
  import opened FdInvariant

  /** VerifyComplete or ApplyComplete goes out again, without a new call of the platform. */
  predicate Repeats(a: Action) { a.Work? && a.call.None? && a.out == OnTheWire }

  /** The platform's work succeeded and is reported for the first time. */
  predicate Reports(a: Action) { a.Work? && a.call.Some? && a.call.value.0 == RESULT_SUCCESS && a.out == OnTheWire }

  /** Actions by which the update agent or the timer ends the phase. */
  predicate Ends(a: Action) { IsCancel(a) || a.TimedOut? }

  /** A phase whose recorded result is not a success. */
  predicate Spoiled(s: Fd) { InPhase(s) && s.req.complete && s.req.result != Some(RESULT_SUCCESS) }

  lemma SpoiledStep(s: Fd, a: Action)
    requires Inv(s) && Spoiled(s) && Enabled(s, a) && !Ends(a)
    ensures Spoiled(Perform(s, a)) && Perform(s, a).state == s.state
  {
  }

  /** From a result that is not a success no run leaves the phase without a cancel or a timeout. */
  lemma {:induction false} SpoiledStays(s: Fd, acts: seq<Action>)
    requires Inv(s) && Spoiled(s) && Legal(s, acts) && forall i :: 0 <= i < |acts| ==> !Ends(acts[i])
    ensures Inv(After(s, acts)) && Spoiled(After(s, acts)) && After(s, acts).state == s.state
  {
    hide Perform, Enabled, Inv, Spoiled, Ends;
    if acts == [] {
    } else {
      var before, a := acts[..|acts| - 1], acts[|acts| - 1];
      SpoiledStays(s, before);
      SpoiledStep(After(s, before), a);
      StepKeepsInv(After(s, before), a);
    }
  }

  /** Once VerifyComplete or ApplyComplete has been repeated, the component never finishes: no
      run without a cancel or a timeout leaves the phase, whatever the first report said. */
  lemma RepeatedNeverFinishes(s: Fd, repeat: Action, acts: seq<Action>)
    requires Inv(s) && Enabled(s, repeat) && Repeats(repeat)
    requires Legal(Perform(s, repeat), acts) && forall i :: 0 <= i < |acts| ==> !Ends(acts[i])
    ensures After(Perform(s, repeat), acts).state == s.state && s.state in {Verify, Apply}
  {
    StepKeepsInv(s, repeat);
    SpoiledStays(Perform(s, repeat), acts);
  }

  // ---- Exactly when a success is kept ----

  /** Neither ended nor settled by the answer to its report. */
  predicate Pending(a: Action) { !Ends(a) && !(a.Answered? && a.answer == Acknowledged) }

  predicate AnyRepeat(acts: seq<Action>) { exists i :: 0 <= i < |acts| && Repeats(acts[i]) }

  /** A reported success, or the generic error of a repetition, waiting for its answer. */
  predicate Awaiting(s: Fd, during: DeviceState, repeated: bool) {
    && s.state == during && during in {Verify, Apply} && s.req.state == Sent && s.req.complete
    && s.req.result == Some(if repeated then RESULT_GENERIC_ERROR else RESULT_SUCCESS)
  }

  lemma AwaitingStep(s: Fd, a: Action, during: DeviceState, repeated: bool)
    requires Inv(s) && Enabled(s, a) && Awaiting(s, during, repeated) && Pending(a)
    ensures Awaiting(Perform(s, a), during, repeated || Repeats(a))
  {
  }

  lemma AnyRepeatSplits(before: seq<Action>, a: Action)
    ensures AnyRepeat(before + [a]) <==> AnyRepeat(before) || Repeats(a)
  {
    var acts := before + [a];
    if AnyRepeat(before) {
      var i :| 0 <= i < |before| && Repeats(before[i]);
      assert Repeats(acts[i]);
    }
    if Repeats(a) { assert Repeats(acts[|before|]); }
  }

  lemma {:induction false} AwaitingAfter(s: Fd, acts: seq<Action>, during: DeviceState)
    requires Inv(s) && Awaiting(s, during, false) && Legal(s, acts)
    requires forall i :: 0 <= i < |acts| ==> Pending(acts[i])
    ensures Inv(After(s, acts)) && Awaiting(After(s, acts), during, AnyRepeat(acts))
  {
    hide Perform, Enabled, Inv, Awaiting, Pending, Repeats;
    if acts == [] {
    } else {
      var before, a := acts[..|acts| - 1], acts[|acts| - 1];
      AwaitingAfter(s, before, during);
      AwaitingStep(After(s, before), a, during, AnyRepeat(before));
      StepKeepsInv(After(s, before), a);
      AnyRepeatSplits(before, a);
      assert acts == before + [a];
    }
  }

  /** In every run: the update agent's answer to a successful verification or application moves
      the device on exactly when the report was not repeated since; otherwise it marks the
      request as failed. */
  lemma SuccessIsKeptIff(s: Fd, report: Action, acts: seq<Action>, answer: Action)
    requires Inv(s) && Enabled(s, report) && Reports(report)
    requires var v := Perform(s, report);
      && Legal(v, acts) && (forall i :: 0 <= i < |acts| ==> Pending(acts[i]))
      && Enabled(After(v, acts), answer) && answer.Answered? && answer.answer == Acknowledged
    ensures var t := Perform(After(Perform(s, report), acts), answer);
      && s.state in {Verify, Apply}
      && (t.state == (if s.state == Verify then Apply else ReadyXfer) <==> !AnyRepeat(acts))
      && (t.state == s.state && t.req.state == Failed <==> AnyRepeat(acts))
  {
    hide After, Legal, AnyRepeat;
    StepKeepsInv(s, report);
    AwaitingAfter(Perform(s, report), acts, s.state);
  }
}
