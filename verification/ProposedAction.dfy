/** Proposed actions: drafting, publishing and deciding, and the confirmed actions a decision issues. */
module ProposedActions {
  import opened Wrappers
  import opened Text
  import L = OperationLedgers

  datatype ProposalStatus = Draft | Published | Superseded | Withdrawn

  datatype Decision = Confirm | EditThenConfirm(editedPayload: string) | Reject

  datatype ProposalError =
    | EmptyEvidence
    | InvalidEvidenceId
    | InvalidVersion(version: nat)
    | InvalidStatusForPublish(status: ProposalStatus)
    | InvalidStatusForWithdraw(status: ProposalStatus)
    | InvalidStatusForSupersede(status: ProposalStatus)
    | InvalidStatusForDecision(status: ProposalStatus)
    | DecisionAlreadyFinalized

  datatype Proposal = Proposal(
    id: string,
    tenantId: string,
    actorUserId: string,
    version: nat,
    status: ProposalStatus,
    evidenceIds: seq<string>,
    decision: Option<Decision>)

  // ---------------------------------------------------------------- evidence ids

  predicate HasValidEvidenceChain(ids: seq<string>) {
    NoneEmpty(TrimAll(ids))
  }

  /** The scan of ids that are trimmed already. */
  function Deduplicated(ids: seq<string>): Result<seq<string>, ProposalError> {
    if ids == [] then Ok([])
    else match Deduplicated(ids[..|ids| - 1])
         case Err(e) => Err(e)
         case Ok(before) =>
           var id := ids[|ids| - 1];
           if id == [] then Err(InvalidEvidenceId)
           else if id in before then Ok(before)
           else Ok(before + [id])
  }

  function Normalized(ids: seq<string>): Result<seq<string>, ProposalError> {
    if ids == [] then Err(EmptyEvidence) else Deduplicated(TrimAll(ids))
  }

  lemma {:induction false} DeduplicatedPrefix(ids: seq<string>, n: nat)
    requires n <= |ids|
    ensures Deduplicated(ids[..n]).Err? ==> Deduplicated(ids) == Deduplicated(ids[..n])
    ensures Deduplicated(ids).Ok? ==>
              Deduplicated(ids[..n]).Ok? && Deduplicated(ids[..n]).value <= Deduplicated(ids).value
    decreases |ids|
  {
    if n == |ids| {
      assert ids[..n] == ids;
    } else {
      assert ids[..|ids| - 1][..n] == ids[..n];
      DeduplicatedPrefix(ids[..|ids| - 1], n);
    }
  }

  lemma DeduplicatedStep(ids: seq<string>, i: nat, before: seq<string>)
    requires i < |ids| && Deduplicated(ids[..i]) == Ok(before)
    ensures ids[i] == [] ==> Deduplicated(ids) == Err(InvalidEvidenceId)
    ensures ids[i] != [] ==> Deduplicated(ids[..i + 1]) == Ok(if ids[i] in before then before else before + [ids[i]])
  {
    assert ids[..i + 1][..i] == ids[..i];
    DeduplicatedPrefix(ids, i + 1);
  }

  method NormalizeEvidenceIds(ids: seq<string>) returns (r: Result<seq<string>, ProposalError>)
    ensures r == Normalized(ids)
  {
    if ids == [] {
      return Err(EmptyEvidence);
    }
    r := KeepFirst(ids, TrimAll(ids));
  }

  /** The loop of `normalize_evidence_ids`. */
  method KeepFirst(ids: seq<string>, ghost trimmed: seq<string>) returns (r: Result<seq<string>, ProposalError>)
    requires trimmed == TrimAll(ids)
    ensures r == Deduplicated(trimmed)
  {
    var seen: set<string> := {};
    var normalized: seq<string> := [];
    var i := 0;
    while i < |ids|
      invariant i <= |ids| == |trimmed|
      invariant Deduplicated(trimmed[..i]) == Ok(normalized)
      invariant forall id :: id in seen <==> id in normalized
    {
      var id := TrimmedId(ids, i);
      DeduplicatedStep(trimmed, i, normalized);
      if id == [] {
        return Err(InvalidEvidenceId);
      }
      if id !in seen {
        seen := seen + {id};
        normalized := normalized + [id];
      }
      i := i + 1;
    }
    assert trimmed[..i] == trimmed;
    r := Ok(normalized);
  }

  lemma {:induction false} DeduplicatedExactly(ids: seq<string>)
    ensures Deduplicated(ids).Ok? <==> NoneEmpty(ids)
    ensures Deduplicated(ids).Err? ==> Deduplicated(ids).error == InvalidEvidenceId
    ensures Deduplicated(ids).Ok? ==> Distinct(Deduplicated(ids).value)
    ensures Deduplicated(ids).Ok? ==> forall id :: id in Deduplicated(ids).value <==> id in ids
  {
    if ids != [] {
      DeduplicatedExactly(ids[..|ids| - 1]);
      assert ids == ids[..|ids| - 1] + [ids[|ids| - 1]];
    }
  }

  /** Distinct non-empty ids scan to themselves. */
  lemma {:induction false} DeduplicatedUnchanged(ids: seq<string>)
    requires Distinct(ids) && NoneEmpty(ids)
    ensures Deduplicated(ids) == Ok(ids)
  {
    if ids != [] {
      var n := |ids| - 1;
      assert forall i :: 0 <= i < n ==> ids[..n][i] == ids[i];
      DeduplicatedUnchanged(ids[..n]);
      assert ids == ids[..n] + [ids[n]];
    }
  }

  /** Normalization accepts exactly the non-empty lists of non-blank ids, keeps each trimmed id once at its first
      place, and what it returns passes the evidence check and normalizes to itself. */
  lemma NormalizedExactly(ids: seq<string>)
    ensures Normalized(ids).Ok? <==> ids != [] && HasValidEvidenceChain(ids)
    ensures Normalized(ids).Err? ==> Normalized(ids).error == if ids == [] then EmptyEvidence else InvalidEvidenceId
    ensures Normalized(ids).Ok? ==>
              var v := Normalized(ids).value;
              && v != [] && Distinct(v) && HasValidEvidenceChain(v) && Normalized(v) == Ok(v)
              && (forall id :: id in v <==> id in TrimAll(ids))
              && (forall n :: 0 < n <= |ids| ==>
                    Deduplicated(TrimAll(ids)[..n]).Ok? && Deduplicated(TrimAll(ids)[..n]).value <= v)
  {
    var trimmed := TrimAll(ids);
    DeduplicatedExactly(trimmed);
    if Normalized(ids).Ok? {
      var v := Normalized(ids).value;
      assert trimmed[0] in v;
      TrimmedMembers(ids, v);
      DeduplicatedUnchanged(v);
      forall n | 0 < n <= |ids| ensures Deduplicated(trimmed[..n]).Ok? && Deduplicated(trimmed[..n]).value <= v {
        DeduplicatedPrefix(trimmed, n);
      }
    }
  }

  lemma TrimmedMembers(ids: seq<string>, v: seq<string>)
    requires forall id :: id in v ==> id in TrimAll(ids) && id != []
    ensures TrimAll(v) == v && NoneEmpty(v)
  {
    forall i | 0 <= i < |v| ensures Trim(v[i]) == v[i] && v[i] != [] {
      assert v[i] in v;
      var j :| 0 <= j < |ids| && TrimAll(ids)[j] == v[i];
      TrimIsIdempotent(ids[j]);
    }
    assert forall i :: 0 <= i < |v| ==> TrimAll(v)[i] == v[i];
  }

  // ---------------------------------------------------------------- confirmed actions

  function Tail(id: string, version: nat, kind: string): string {
    id + ":v" + Decimal(version) + ":" + kind
  }

  function KindName(d: Decision): string
    requires !d.Reject?
  {
    if d.Confirm? then "confirm" else "edit_then_confirm"
  }

  function KeyPrefix(tenantId: string): string {
    "tenant:" + tenantId + ":pa:"
  }

  function BuildConfirmedAction(p: Proposal, kind: string, confirmedAt: int): L.ConfirmedAction {
    var tail := Tail(p.id, p.version, kind);
    L.ConfirmedAction(
      "pa:" + tail, p.tenantId, p.actorUserId, KeyPrefix(p.tenantId) + tail, L.Confirmed, Some(confirmedAt))
  }

  // ---------------------------------------------------------------- calls on the value

  datatype ProposalCall = Publish | Withdraw | Supersede | Decide(decision: Decision, confirmedAt: int)

  /** The checks `publish` and `decide` share. */
  function EnsureEvidence(p: Proposal): Result<(), ProposalError> {
    if p.version == 0 then Err(InvalidVersion(0))
    else if p.evidenceIds == [] then Err(EmptyEvidence)
    else if !HasValidEvidenceChain(p.evidenceIds) then Err(InvalidEvidenceId)
    else Ok(())
  }

  function Applied(p: Proposal, call: ProposalCall): (Proposal, Result<Option<L.ConfirmedAction>, ProposalError>) {
    match call
    case Publish =>
      if EnsureEvidence(p).Err? then (p, Err(EnsureEvidence(p).error))
      else if p.status != Draft then (p, Err(InvalidStatusForPublish(p.status)))
      else (p.(status := Published), Ok(None))
    case Withdraw =>
      if p.decision.Some? then (p, Err(DecisionAlreadyFinalized))
      else if p.status !in {Draft, Published} then (p, Err(InvalidStatusForWithdraw(p.status)))
      else (p.(status := Withdrawn), Ok(None))
    case Supersede =>
      if p.decision.Some? then (p, Err(DecisionAlreadyFinalized))
      else if p.status != Published then (p, Err(InvalidStatusForSupersede(p.status)))
      else (p.(status := Superseded), Ok(None))
    case Decide(decision, confirmedAt) =>
      if EnsureEvidence(p).Err? then (p, Err(EnsureEvidence(p).error))
      else if p.status != Published then (p, Err(InvalidStatusForDecision(p.status)))
      else if p.decision.Some? then (p, Err(DecisionAlreadyFinalized))
      else (p.(decision := Some(decision)),
            Ok(if decision.Reject? then None else Some(BuildConfirmedAction(p, KindName(decision), confirmedAt))))
  }

  /** The error of a proposal that may be neither published nor decided, if any. */
  predicate Unfit(p: Proposal, e: ProposalError) {
    || (p.version == 0 && e == InvalidVersion(0))
    || (p.version > 0 && p.evidenceIds == [] && e == EmptyEvidence)
    || (p.version > 0 && p.evidenceIds != [] && [] in TrimAll(p.evidenceIds) && e == InvalidEvidenceId)
  }

  predicate Fit(p: Proposal) {
    p.version > 0 && p.evidenceIds != [] && [] !in TrimAll(p.evidenceIds)
  }

  /** What each call accepts, what it leaves, and which error refuses it. */
  lemma CallsExactly(p: Proposal, decision: Decision, at: int)
    ensures var (n, r) := Applied(p, Publish);
            && (r.Ok? <==> Fit(p) && p.status == Draft)
            && (if r.Ok? then n == p.(status := Published) && r.value == None
                else n == p && (Unfit(p, r.error) || (Fit(p) && r.error == InvalidStatusForPublish(p.status))))
    ensures var (n, r) := Applied(p, Withdraw);
            && (r.Ok? <==> p.decision == None && p.status in {Draft, Published})
            && (if r.Ok? then n == p.(status := Withdrawn) && r.value == None
                else n == p && r.error == if p.decision != None then DecisionAlreadyFinalized
                                          else InvalidStatusForWithdraw(p.status))
    ensures var (n, r) := Applied(p, Supersede);
            && (r.Ok? <==> p.decision == None && p.status == Published)
            && (if r.Ok? then n == p.(status := Superseded) && r.value == None
                else n == p && r.error == if p.decision != None then DecisionAlreadyFinalized
                                          else InvalidStatusForSupersede(p.status))
    ensures var (n, r) := Applied(p, Decide(decision, at));
            && (r.Ok? <==> Fit(p) && p.status == Published && p.decision == None)
            && (if r.Ok? then n == p.(decision := Some(decision)) && (r.value == None <==> decision == Reject)
                else n == p && (Unfit(p, r.error)
                                || (Fit(p) && p.status != Published && r.error == InvalidStatusForDecision(p.status))
                                || (Fit(p) && p.status == Published && r.error == DecisionAlreadyFinalized)))
  {
    EvidenceExactly(p);
  }

  lemma EvidenceExactly(p: Proposal)
    ensures EnsureEvidence(p).Ok? <==> Fit(p)
    ensures EnsureEvidence(p).Err? ==> Unfit(p, EnsureEvidence(p).error)
  {
    var t := TrimAll(p.evidenceIds);
    assert HasValidEvidenceChain(p.evidenceIds) <==> [] !in t;
  }

  /** What a decision issues, word for word. */
  lemma IssuesExactly(p: Proposal, at: int, payload: string)
    requires Fit(p) && p.status == Published && p.decision == None
    ensures Applied(p, Decide(Confirm, at)).1 == Ok(Some(Worded(p, "confirm", at)))
    ensures Applied(p, Decide(EditThenConfirm(payload), at)).1 == Ok(Some(Worded(p, "edit_then_confirm", at)))
    ensures Applied(p, Decide(Reject, at)).1 == Ok(None)
  {
    EvidenceExactly(p);
    WordedIsBuilt(p, "confirm", at);
    WordedIsBuilt(p, "edit_then_confirm", at);
  }

  /** The action's id and key with every part in place. */
  function Worded(p: Proposal, kind: string, at: int): L.ConfirmedAction {
    L.ConfirmedAction(
      "pa:" + p.id + ":v" + Decimal(p.version) + ":" + kind,
      p.tenantId,
      p.actorUserId,
      "tenant:" + p.tenantId + ":pa:" + p.id + ":v" + Decimal(p.version) + ":" + kind,
      L.Confirmed,
      Some(at))
  }

  lemma WordedIsBuilt(p: Proposal, kind: string, at: int)
    ensures BuildConfirmedAction(p, kind, at) == Worded(p, kind, at)
  {
    var v := Decimal(p.version);
    assert "pa:" + Tail(p.id, p.version, kind) == "pa:" + p.id + ":v" + v + ":" + kind;
    assert KeyPrefix(p.tenantId) + Tail(p.id, p.version, kind)
        == "tenant:" + p.tenantId + ":pa:" + p.id + ":v" + v + ":" + kind;
  }

  // ---------------------------------------------------------------- any sequence of calls

  function RunCalls(p: Proposal, calls: seq<ProposalCall>): Proposal {
    if calls == [] then p else Applied(RunCalls(p, calls[..|calls| - 1]), calls[|calls| - 1]).0
  }

  function Accepted(p: Proposal, calls: seq<ProposalCall>): seq<ProposalCall> {
    if calls == [] then []
    else
      var before := calls[..|calls| - 1];
      var last := calls[|calls| - 1];
      Accepted(p, before) + if Applied(RunCalls(p, before), last).1.Ok? then [last] else []
  }

  function Issued(p: Proposal, calls: seq<ProposalCall>): seq<L.ConfirmedAction> {
    if calls == [] then []
    else
      var before := calls[..|calls| - 1];
      Issued(p, before) + IssuedBy(Applied(RunCalls(p, before), calls[|calls| - 1]).1)
  }

  /** The only accepted histories of a draft, with the status and the decision each leaves. */
  predicate History(ok: seq<ProposalCall>, status: ProposalStatus, decision: Option<Decision>) {
    || (ok == [] && status == Draft && decision == None)
    || (ok == [Publish] && status == Published && decision == None)
    || (ok == [Withdraw] && status == Withdrawn && decision == None)
    || (ok == [Publish, Withdraw] && status == Withdrawn && decision == None)
    || (ok == [Publish, Supersede] && status == Superseded && decision == None)
    || (|ok| == 2 && ok[0] == Publish && ok[1].Decide? && status == Published && decision == Some(ok[1].decision))
  }

  /** What `draft` makes of its arguments: the version is checked, then the evidence. */
  function Drafted(id: string, tenantId: string, actorUserId: string, version: nat, evidenceIds: seq<string>)
    : Result<Proposal, ProposalError>
  {
    if version == 0 then Err(InvalidVersion(0))
    else match Normalized(evidenceIds)
         case Err(e) => Err(e)
         case Ok(ids) => Ok(Proposal(id, tenantId, actorUserId, version, Draft, ids, None))
  }

  predicate FreshDraft(p: Proposal) {
    p.status == Draft && p.decision == None
  }

  /** What a history issues: the action of its deciding call, unless that rejects. */
  function ActionsOf(p: Proposal, ok: seq<ProposalCall>): seq<L.ConfirmedAction> {
    if |ok| == 2 && ok[1].Decide? && !ok[1].decision.Reject?
    then [BuildConfirmedAction(p, KindName(ok[1].decision), ok[1].confirmedAt)]
    else []
  }

  /** `n` is what the accepted calls `ok` made of the draft `p`. */
  predicate Reached(p: Proposal, ok: seq<ProposalCall>, n: Proposal) {
    && History(ok, n.status, n.decision)
    && n == p.(status := n.status, decision := n.decision)
    && (ok != [] && ok[0] == Publish ==> EnsureEvidence(p).Ok?)
  }

  /** The actions an answer issues. */
  function IssuedBy(r: Result<Option<L.ConfirmedAction>, ProposalError>): seq<L.ConfirmedAction> {
    if r.Ok? && r.value.Some? then [r.value.value] else []
  }

  lemma BuildIgnoresStatus(p: Proposal, n: Proposal, kind: string, at: int)
    requires n == p.(status := n.status, decision := n.decision)
    ensures BuildConfirmedAction(n, kind, at) == BuildConfirmedAction(p, kind, at)
  {
  }

  lemma RefusedChangesNothing(p: Proposal, call: ProposalCall)
    requires Applied(p, call).1.Err?
    ensures Applied(p, call).0 == p
  {
  }

  lemma StatusCallReached(p: Proposal, ok: seq<ProposalCall>, n: Proposal, call: ProposalCall)
    requires Reached(p, ok, n) && !call.Decide? && Applied(n, call).1.Ok?
    ensures Reached(p, ok + [call], Applied(n, call).0)
    ensures Applied(n, call).1 == Ok(None) && ActionsOf(p, ok) == ActionsOf(p, ok + [call]) == []
  {
  }

  lemma DecisionReached(p: Proposal, ok: seq<ProposalCall>, n: Proposal, call: ProposalCall)
    requires Reached(p, ok, n) && call.Decide? && Applied(n, call).1.Ok?
    ensures ok == [Publish]
    ensures Reached(p, ok + [call], Applied(n, call).0)
    ensures ActionsOf(p, ok + [call]) == IssuedBy(Applied(n, call).1)
  {
    if !call.decision.Reject? {
      BuildIgnoresStatus(p, n, KindName(call.decision), call.confirmedAt);
    }
  }

  /** However a draft is called, its accepted calls are one of six short histories, at most one of them a decision;
      at most one action is ever issued, the one the decision asks for, and nothing but status and decision
      changes. */
  lemma {:induction false} AtMostOneDecision(p: Proposal, calls: seq<ProposalCall>)
    requires FreshDraft(p)
    ensures Reached(p, Accepted(p, calls), RunCalls(p, calls))
    ensures Issued(p, calls) == ActionsOf(p, Accepted(p, calls))
    ensures |Issued(p, calls)| <= 1
  {
    if calls != [] {
      var before := calls[..|calls| - 1];
      var last := calls[|calls| - 1];
      AtMostOneDecision(p, before);
      var n := RunCalls(p, before);
      if Applied(n, last).1.Err? {
        RefusedChangesNothing(n, last);
      } else if last.Decide? {
        DecisionReached(p, Accepted(p, before), n, last);
      } else {
        StatusCallReached(p, Accepted(p, before), n, last);
      }
    }
  }

  lemma DraftPasses(id: string, tenantId: string, actorUserId: string, version: nat, evidenceIds: seq<string>)
    requires Drafted(id, tenantId, actorUserId, version, evidenceIds).Ok?
    ensures var p := Drafted(id, tenantId, actorUserId, version, evidenceIds).value;
            && FreshDraft(p) && EnsureEvidence(p).Ok?
            && p.id == id && p.tenantId == tenantId && p.actorUserId == actorUserId && p.version == version > 0
  {
    NormalizedExactly(evidenceIds);
  }

  lemma DraftedExactly(id: string, tenantId: string, actorUserId: string, version: nat, evidenceIds: seq<string>)
    ensures Drafted(id, tenantId, actorUserId, version, evidenceIds).Ok?
       <==> version > 0 && evidenceIds != [] && HasValidEvidenceChain(evidenceIds)
  {
    NormalizedExactly(evidenceIds);
  }

  predicate EvidenceError(e: ProposalError) {
    e.InvalidVersion? || e.EmptyEvidence? || e.InvalidEvidenceId?
  }

  /** A draft passes the evidence checks for good: whatever was called before, neither `publish` nor `decide` ever
      answers one of their errors. */
  lemma EvidenceIsSettledByDraft(
    id: string, tenantId: string, actorUserId: string, version: nat, evidenceIds: seq<string>,
    calls: seq<ProposalCall>, call: ProposalCall)
    requires Drafted(id, tenantId, actorUserId, version, evidenceIds).Ok?
    ensures var r := Applied(RunCalls(Drafted(id, tenantId, actorUserId, version, evidenceIds).value, calls), call).1;
            r.Err? ==> !EvidenceError(r.error)
  {
    DraftPasses(id, tenantId, actorUserId, version, evidenceIds);
    var p := Drafted(id, tenantId, actorUserId, version, evidenceIds).value;
    AtMostOneDecision(p, calls);
    EvidenceStays(p, RunCalls(p, calls), call);
  }

  lemma SameEvidence(p: Proposal, n: Proposal)
    requires n.version == p.version && n.evidenceIds == p.evidenceIds
    ensures EnsureEvidence(n) == EnsureEvidence(p)
  {
  }

  lemma EvidencePassed(n: Proposal, call: ProposalCall)
    requires EnsureEvidence(n).Ok?
    ensures Applied(n, call).1.Err? ==> !EvidenceError(Applied(n, call).1.error)
  {
  }

  lemma EvidenceStays(p: Proposal, n: Proposal, call: ProposalCall)
    requires EnsureEvidence(p).Ok? && n == p.(status := n.status, decision := n.decision)
    ensures Applied(n, call).1.Err? ==> !EvidenceError(Applied(n, call).1.error)
  {
    SameEvidence(p, n);
    EvidencePassed(n, call);
  }

  // ---------------------------------------------------------------- the object

  class ProposedAction {
    const id: string
    const tenantId: string
    const actorUserId: string
    const version: nat
    const evidenceIds: seq<string>
    var status: ProposalStatus
    var decision: Option<Decision>

    function Value(): Proposal
      reads this
    {
      Proposal(id, tenantId, actorUserId, version, status, evidenceIds, decision)
    }

    constructor (p: Proposal)
      ensures Value() == p
    {
      id, tenantId, actorUserId, version := p.id, p.tenantId, p.actorUserId, p.version;
      evidenceIds, status, decision := p.evidenceIds, p.status, p.decision;
    }

    static method NewDraft(id: string, tenantId: string, actorUserId: string, version: nat, evidenceIds: seq<string>)
      returns (r: Result<ProposedAction, ProposalError>)
      ensures var d := Drafted(id, tenantId, actorUserId, version, evidenceIds);
              if d.Err? then r == Err(d.error) else r.Ok? && fresh(r.value) && r.value.Value() == d.value
      ensures r.Ok? ==> FreshDraft(r.value.Value()) && EnsureEvidence(r.value.Value()).Ok?
    {
      if version == 0 {
        return Err(InvalidVersion(version));
      }
      var ids := NormalizeEvidenceIds(evidenceIds);
      if ids.Err? {
        return Err(ids.error);
      }
      NormalizedExactly(evidenceIds);
      var action := new ProposedAction(Proposal(id, tenantId, actorUserId, version, Draft, ids.value, None));
      r := Ok(action);
    }

    method DoPublish() returns (r: Result<Option<L.ConfirmedAction>, ProposalError>)
      modifies this
      ensures (Value(), r) == Applied(old(Value()), Publish)
    {
      var ensured := CheckEvidence();
      if ensured.Err? {
        return Err(ensured.error);
      }
      if status != Draft {
        return Err(InvalidStatusForPublish(status));
      }
      status := Published;
      r := Ok(None);
    }

    method DoWithdraw() returns (r: Result<Option<L.ConfirmedAction>, ProposalError>)
      modifies this
      ensures (Value(), r) == Applied(old(Value()), Withdraw)
    {
      if decision.Some? {
        return Err(DecisionAlreadyFinalized);
      }
      if status != Draft && status != Published {
        return Err(InvalidStatusForWithdraw(status));
      }
      status := Withdrawn;
      r := Ok(None);
    }

    method DoSupersede() returns (r: Result<Option<L.ConfirmedAction>, ProposalError>)
      modifies this
      ensures (Value(), r) == Applied(old(Value()), Supersede)
    {
      if decision.Some? {
        return Err(DecisionAlreadyFinalized);
      }
      if status != Published {
        return Err(InvalidStatusForSupersede(status));
      }
      status := Superseded;
      r := Ok(None);
    }

    method DoDecide(choice: Decision, confirmedAt: int) returns (r: Result<Option<L.ConfirmedAction>, ProposalError>)
      modifies this
      ensures (Value(), r) == Applied(old(Value()), Decide(choice, confirmedAt))
    {
      var ensured := CheckEvidence();
      if ensured.Err? {
        return Err(ensured.error);
      }
      if status != Published {
        return Err(InvalidStatusForDecision(status));
      }
      if decision.Some? {
        return Err(DecisionAlreadyFinalized);
      }
      ghost var before := Value();
      decision := Some(choice);
      if choice.Reject? {
        return Ok(None);
      }
      BuildIgnoresStatus(before, Value(), KindName(choice), confirmedAt);
      r := Ok(Some(BuildConfirmedAction(Value(), KindName(choice), confirmedAt)));
    }

    method CheckEvidence() returns (r: Result<(), ProposalError>)
      ensures r == EnsureEvidence(Value())
    {
      if version == 0 {
        return Err(InvalidVersion(version));
      }
      if evidenceIds == [] {
        return Err(EmptyEvidence);
      }
      if !HasValidEvidenceChain(evidenceIds) {
        return Err(InvalidEvidenceId);
      }
      r := Ok(());
    }
  }
}
