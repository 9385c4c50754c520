// Instance ids: how they count up, which responses they shut out, and when an accepted
// response really answers the request that went out last.
module FdIds {
  import opened Bytes
  import opened Base
  import opened FdState
  import opened FdInvariant
  import opened FdHandlers

  /** Actions that allocate an instance id. */
  predicate Allocates(a: Action) {
    a.DownloadUnsent? || a.Fetch? || a.ReportTransfer? || (a.Work? && a.out != Waiting)
  }

  /** Answers that settle the request: all but a retry, a refusal and a delivery that failed. */
  predicate Settles(answer: Answer) { answer != NoEffect && !(answer.Data? && answer.outcome.Fails?) }

  /** Actions that start a fresh request record. */
  predicate StartsRound(a: Action) {
    (a.Store? && a.accepted) || a.TimedOut? || (a.Answered? && Settles(a.answer))
  }

  /** Allocations since the last fresh request record. */
  function Allocations(acts: seq<Action>): nat {
    if acts == [] then 0
    else
      var a := acts[|acts| - 1];
      if StartsRound(a) then 0
      else Allocations(acts[..|acts| - 1]) + (if Allocates(a) then 1 else 0)
  }

  lemma IdStep(s: Fd, a: Action)
    requires Enabled(s, a)
    ensures Perform(s, a).req.instanceId ==
      if StartsRound(a) then None
      else if Allocates(a) then Some(NextInstanceId(s.req.instanceId))
      else s.req.instanceId
  {
  }

  lemma NextIdCounts(k: nat)
    ensures NextInstanceId(if k == 0 then None else Some(k % INSTANCE_ID_COUNT)) as int == (k + 1) % INSTANCE_ID_COUNT
  {
  }

  /** The k-th id allocated in a round is k mod 32. */
  lemma {:induction false} IdsCountUp(s: Fd, acts: seq<Action>)
    requires IsInitial(s) && Legal(s, acts)
    ensures var k := Allocations(acts);
      After(s, acts).req.instanceId == if k == 0 then None else Some(k % INSTANCE_ID_COUNT)
  {
    if acts == [] {
    } else {
      var before := acts[..|acts| - 1];
      hide Perform, Enabled, Legal, NextInstanceId, StartsRound, Allocates;
      IdsCountUp(s, before);
      IdStep(After(s, before), acts[|acts| - 1]);
      NextIdCounts(Allocations(before));
    }
  }

  /** A response to any of the previous 31 allocations of the round is rejected, and nothing
      changes, T1 timestamp included. */
  lemma StaleResponseRejected(s: Fd, acts: seq<Action>, stale: nat, payload: seq<byte>, ops: Platform)
    requires IsInitial(s) && Legal(s, acts)
    requires var k := Allocations(acts); 0 < k && k - INSTANCE_ID_COUNT < stale < k
    requires |payload| >= HEADER_LEN && InstanceId(payload[0]) as int == stale % INSTANCE_ID_COUNT
    ensures Inv(After(s, acts)) && HandleResponse(After(s, acts), payload, ops) == (Err(FdInitiatorModeError), Skip)
  {
    ReachableInv(s, acts);
    IdsCountUp(s, acts);
    var k := Allocations(acts);
    assert k % 32 != stale % 32;
  }

  // ---- Ids that never went out ----

  /** The id of the last request that went out. */
  function IdSent(s: Fd, acts: seq<Action>): Option<byte> {
    if acts == [] then None
    else if OnWire(acts[|acts| - 1]) then After(s, acts).req.instanceId
    else IdSent(s, acts[..|acts| - 1])
  }

  /** Ids allocated since then for requests that were not sent. */
  function UnsentSince(acts: seq<Action>): nat {
    if acts == [] then 0
    else
      var a := acts[|acts| - 1];
      if OnWire(a) then 0 else UnsentSince(acts[..|acts| - 1]) + (if Allocates(a) then 1 else 0)
  }

  /** A request is outstanding only if one went out and no settled answer came since. */
  lemma SentStep(s: Fd, a: Action)
    requires Enabled(s, a) && Perform(s, a).req.state == Sent && !OnWire(a)
    ensures s.req.state == Sent && !StartsRound(a)
  {
  }

  lemma OnWireIsSent(s: Fd, a: Action)
    requires Enabled(s, a) && OnWire(a)
    ensures Perform(s, a).req.instanceId == Some(NextInstanceId(s.req.instanceId))
  {
  }

  lemma Advance(id: byte, k: nat)
    requires id as int < INSTANCE_ID_COUNT
    ensures NextInstanceId(Some((id as int + k) % INSTANCE_ID_COUNT)) as int == (id as int + k + 1) % INSTANCE_ID_COUNT
  {
  }

  lemma NextIdIsSmall(id: Option<byte>)
    ensures NextInstanceId(id) as int < INSTANCE_ID_COUNT
  {
  }

  /** The outstanding id is the one that went out, advanced by the allocations that did not. */
  lemma {:induction false} OutstandingId(s: Fd, acts: seq<Action>)
    requires IsInitial(s) && Legal(s, acts) && After(s, acts).req.state == Sent
    ensures IdSent(s, acts).Some? && IdSent(s, acts).value as int < INSTANCE_ID_COUNT
    ensures After(s, acts).req.instanceId
      == Some((IdSent(s, acts).value as int + UnsentSince(acts)) % INSTANCE_ID_COUNT)
  {
    hide Perform, Enabled, NextInstanceId, StartsRound, Allocates, OnWire, Inv;
    if acts == [] {
      assert false;
    } else {
      var before, a := acts[..|acts| - 1], acts[|acts| - 1];
      var u := After(s, before);
      IdStep(u, a);
      if OnWire(a) {
        OnWireIsSent(u, a);
        NextIdIsSmall(u.req.instanceId);
      } else {
        SentStep(u, a);
        OutstandingId(s, before);
        Advance(IdSent(s, before).value, UnsentSince(before));
      }
    }
  }

  lemma SameModulo(id: byte, k: nat)
    requires id as int < INSTANCE_ID_COUNT
    ensures (id as int + k) % INSTANCE_ID_COUNT == id as int <==> k % INSTANCE_ID_COUNT == 0
  {
  }

  /** An accepted response carries the id of the request that went out last exactly when the
      number of ids allocated since without sending is a multiple of 32: none, as a rule. After a
      retry that did not fit its buffer the response to the request on the wire is refused. */
  lemma AcceptedAnswersLastSentIff(s: Fd, acts: seq<Action>, a: Action)
    requires IsInitial(s) && Legal(s, acts) && a.Answered? && Enabled(After(s, acts), a)
    ensures IdSent(s, acts).Some?
    ensures a.instanceId == IdSent(s, acts).value <==> UnsentSince(acts) % INSTANCE_ID_COUNT == 0
  {
    OutstandingId(s, acts);
    SameModulo(IdSent(s, acts).value, UnsentSince(acts));
  }
}
