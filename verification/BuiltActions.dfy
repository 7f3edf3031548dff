/** The confirmed actions decisions build, and exactly when their idempotency keys and trace ids keep the promises of
    the execution protocol: at most one execution per key, and a ledger that agrees with the audit trace. */
module BuiltActions {
  import opened Wrappers
  import opened Text
  import opened OperationLedgers
  import opened ExecutionProtocol
  import opened ExecutionTheorems
  import opened LedgerTraceAgreement
  import P = ProposedActions

  /** What follows the tenant in an action's key: the proposal's id and version and the kind of decision. */
  ghost predicate IsTail(tail: string) {
    exists id: string, version: nat, edited: bool :: version > 0 && tail == TailOf(id, version, edited)
  }

  function TailOf(id: string, version: nat, edited: bool): string {
    P.Tail(id, version, if edited then "edit_then_confirm" else "confirm")
  }

  /** The proposal a decision sees; only these fields reach the action it builds. */
  function Published(tenantId: string, id: string, actorUserId: string, version: nat): P.Proposal {
    P.Proposal(id, tenantId, actorUserId, version, P.Published, [], None)
  }

  function Built(tenantId: string, id: string, actorUserId: string, version: nat, edited: bool, confirmedAt: int)
    : ConfirmedAction
  {
    P.BuildConfirmedAction(Published(tenantId, id, actorUserId, version),
                           if edited then "edit_then_confirm" else "confirm", confirmedAt)
  }

  /** The actions `build_confirmed_action` makes for a tenant. */
  ghost predicate BuiltFor(tenantId: string, a: ConfirmedAction) {
    exists id: string, actorUserId: string, version: nat, edited: bool, confirmedAt: int ::
      version > 0 && a == Built(tenantId, id, actorUserId, version, edited, confirmedAt)
  }

  /** The actions that some sequence of calls on some draft of the tenant issues. */
  ghost predicate Issuable(tenantId: string, a: ConfirmedAction) {
    exists id: string, actorUserId: string, version: nat, evidenceIds: seq<string>, calls: seq<P.ProposalCall> ::
      IssuedFrom(tenantId, id, actorUserId, version, evidenceIds, calls, a)
  }

  predicate IssuedFrom(tenantId: string, id: string, actorUserId: string, version: nat, evidenceIds: seq<string>,
                       calls: seq<P.ProposalCall>, a: ConfirmedAction)
  {
    var draft := P.Drafted(id, tenantId, actorUserId, version, evidenceIds);
    draft.Ok? && a in P.Issued(draft.value, calls)
  }

  ghost predicate IssuedFor(tenants: set<string>, actions: set<ConfirmedAction>) {
    forall a :: a in actions ==> a.tenantId in tenants && Issuable(a.tenantId, a)
  }

  lemma BuildIgnoresTheRest(p: P.Proposal, kind: string, confirmedAt: int)
    ensures P.BuildConfirmedAction(p, kind, confirmedAt)
         == P.BuildConfirmedAction(Published(p.tenantId, p.id, p.actorUserId, p.version), kind, confirmedAt)
  {
  }

  /** Whatever is issued, over any sequence of calls on any draft, is built for the draft's tenant. */
  lemma IssuedIsBuilt(tenantId: string, id: string, actorUserId: string, version: nat, evidenceIds: seq<string>,
                      calls: seq<P.ProposalCall>, a: ConfirmedAction)
    requires IssuedFrom(tenantId, id, actorUserId, version, evidenceIds, calls, a)
    ensures BuiltFor(tenantId, a)
  {
    var p := P.Drafted(id, tenantId, actorUserId, version, evidenceIds).value;
    P.AtMostOneDecision(p, calls);
    var d := P.Accepted(p, calls)[1];
    DraftBuilds(p, d.decision, d.confirmedAt);
    assert a == Built(tenantId, id, actorUserId, version, d.decision.EditThenConfirm?, d.confirmedAt);
  }

  /** A decision on any proposal, drafted or loaded, builds the action of that proposal. */
  lemma DecisionsBuild(p: P.Proposal, call: P.ProposalCall)
    requires call.Decide? && P.Applied(p, call).1.Ok? && !call.decision.Reject?
    ensures P.Applied(p, call).1.value
         == Some(Built(p.tenantId, p.id, p.actorUserId, p.version, call.decision.EditThenConfirm?, call.confirmedAt))
    ensures BuiltFor(p.tenantId, P.Applied(p, call).1.value.value)
  {
    DraftBuilds(p, call.decision, call.confirmedAt);
  }

  /** Whatever is built is issued: draft it, publish it, decide it. */
  lemma BuiltIsIssued(tenantId: string, id: string, actorUserId: string, version: nat, edited: bool, confirmedAt: int)
    requires version > 0
    ensures Issuable(tenantId, Built(tenantId, id, actorUserId, version, edited, confirmedAt))
  {
    var evidenceIds := SomeEvidence();
    P.DraftedExactly(id, tenantId, actorUserId, version, evidenceIds);
    EvidenceIssues(tenantId, id, actorUserId, version, evidenceIds, edited, confirmedAt);
  }

  lemma SomeEvidence() returns (evidenceIds: seq<string>)
    ensures evidenceIds != [] && P.HasValidEvidenceChain(evidenceIds)
  {
    evidenceIds := ["e"];
    assert Trim("e") == "e" by {
      TrimIsIdempotent("e");
    }
  }

  lemma EvidenceIssues(tenantId: string, id: string, actorUserId: string, version: nat, evidenceIds: seq<string>,
                       edited: bool, confirmedAt: int)
    requires P.Drafted(id, tenantId, actorUserId, version, evidenceIds).Ok?
    ensures Issuable(tenantId, Built(tenantId, id, actorUserId, version, edited, confirmedAt))
  {
    P.DraftPasses(id, tenantId, actorUserId, version, evidenceIds);
    var p := P.Drafted(id, tenantId, actorUserId, version, evidenceIds).value;
    var decision := if edited then P.EditThenConfirm([]) else P.Confirm;
    var calls := [P.Publish, P.Decide(decision, confirmedAt)];
    var a := Built(tenantId, id, actorUserId, version, edited, confirmedAt);
    PublishThenDecide(p, decision, confirmedAt);
    DraftBuilds(p, decision, confirmedAt);
    OneIssued(p, calls, a);
    FromThisDraft(tenantId, id, actorUserId, version, evidenceIds, calls, a);
  }

  lemma OneIssued(p: P.Proposal, calls: seq<P.ProposalCall>, a: ConfirmedAction)
    requires P.Issued(p, calls) == [a]
    ensures a in P.Issued(p, calls)
  {
  }

  lemma FromThisDraft(tenantId: string, id: string, actorUserId: string, version: nat, evidenceIds: seq<string>,
                      calls: seq<P.ProposalCall>, a: ConfirmedAction)
    requires P.Drafted(id, tenantId, actorUserId, version, evidenceIds).Ok?
    requires a in P.Issued(P.Drafted(id, tenantId, actorUserId, version, evidenceIds).value, calls)
    ensures Issuable(tenantId, a)
  {
    assert IssuedFrom(tenantId, id, actorUserId, version, evidenceIds, calls, a);
  }

  lemma DraftBuilds(p: P.Proposal, decision: P.Decision, confirmedAt: int)
    requires !decision.Reject?
    ensures P.BuildConfirmedAction(p, P.KindName(decision), confirmedAt)
         == Built(p.tenantId, p.id, p.actorUserId, p.version, decision.EditThenConfirm?, confirmedAt)
  {
    BuildIgnoresTheRest(p, P.KindName(decision), confirmedAt);
  }

  lemma PublishThenDecide(p: P.Proposal, decision: P.Decision, confirmedAt: int)
    requires P.FreshDraft(p) && P.EnsureEvidence(p).Ok? && !decision.Reject?
    ensures P.Issued(p, [P.Publish, P.Decide(decision, confirmedAt)])
         == [P.BuildConfirmedAction(p, P.KindName(decision), confirmedAt)]
  {
    var first, both := [P.Publish], [P.Publish, P.Decide(decision, confirmedAt)];
    assert first[..0] == [] && both[..1] == first;
    var published := p.(status := P.Published);
    assert P.RunCalls(p, first) == published;
    P.BuildIgnoresStatus(p, published, P.KindName(decision), confirmedAt);
    assert P.Issued(p, first) == [];
  }

  /** The two descriptions agree: decisions issue exactly the built actions. */
  lemma IssuableExactly(tenantId: string, a: ConfirmedAction)
    ensures Issuable(tenantId, a) <==> BuiltFor(tenantId, a)
  {
    if Issuable(tenantId, a) {
      var id: string, actor: string, version: nat, evidenceIds: seq<string>, calls: seq<P.ProposalCall> :|
        IssuedFrom(tenantId, id, actor, version, evidenceIds, calls, a);
      IssuedIsBuilt(tenantId, id, actor, version, evidenceIds, calls, a);
    }
    if BuiltFor(tenantId, a) {
      var id: string, actor: string, version: nat, edited: bool, confirmedAt: int :|
        version > 0 && a == Built(tenantId, id, actor, version, edited, confirmedAt);
      BuiltIsIssued(tenantId, id, actor, version, edited, confirmedAt);
    }
  }

  /** An issued action is confirmed, belongs to its tenant, and has a key of the built form. */
  lemma IssuedKey(tenantId: string, a: ConfirmedAction) returns (tail: string)
    requires Issuable(tenantId, a)
    ensures a.status == Confirmed && a.confirmedAt.Some? && a.tenantId == tenantId
    ensures IsTail(tail) && a.actionId == "pa:" + tail && a.idempotencyKey == P.KeyPrefix(tenantId) + tail
  {
    IssuableExactly(tenantId, a);
    var id: string, actor: string, version: nat, edited: bool, confirmedAt: int :|
      version > 0 && a == Built(tenantId, id, actor, version, edited, confirmedAt);
    tail := TailOf(id, version, edited);
  }

  lemma IssueTail(tenantId: string, tail: string) returns (a: ConfirmedAction)
    requires IsTail(tail)
    ensures Issuable(tenantId, a) && a.tenantId == tenantId && a.status == Confirmed
    ensures a.idempotencyKey == P.KeyPrefix(tenantId) + tail && TraceId(a) == TracePrefix(tenantId) + tail
  {
    var id: string, version: nat, edited: bool :| version > 0 && tail == TailOf(id, version, edited);
    a := Built(tenantId, id, "actor", version, edited, 0);
    BuiltIsIssued(tenantId, id, "actor", version, edited, 0);
    assert a.idempotencyKey == P.KeyPrefix(tenantId) + tail;
    TraceOfBuilt(a, tail);
  }

  // ---------------------------------------------------------------- the tail names the decision

  lemma LastSeparatorUnique(a: string, s: string, b: string, t: string, sep: char)
    requires sep !in s && sep !in t && a + [sep] + s == b + [sep] + t
    ensures a == b && s == t
  {
    var x, y := a + [sep] + s, b + [sep] + t;
    assert x[|a|] == sep && y[|b|] == sep;
    assert forall k :: |a| < k < |x| ==> x[k] == s[k - |a| - 1] != sep;
    assert forall k :: |b| < k < |y| ==> y[k] == t[k - |b| - 1] != sep;
    assert |a| == |b|;
    assert a == x[..|a|] && b == y[..|b|] && s == x[|a| + 1..] && t == y[|b| + 1..];
  }

  /** Whatever colons the id holds, a tail is built from one id, one version and one kind. */
  lemma TailNamesTheDecision(id1: string, v1: nat, e1: bool, id2: string, v2: nat, e2: bool)
    requires TailOf(id1, v1, e1) == TailOf(id2, v2, e2)
    ensures id1 == id2 && v1 == v2 && e1 == e2
  {
    var k1 := if e1 then "edit_then_confirm" else "confirm";
    var k2 := if e2 then "edit_then_confirm" else "confirm";
    assert TailOf(id1, v1, e1) == (id1 + ":v" + Decimal(v1)) + [':'] + k1;
    assert TailOf(id2, v2, e2) == (id2 + ":v" + Decimal(v2)) + [':'] + k2;
    LastSeparatorUnique(id1 + ":v" + Decimal(v1), k1, id2 + ":v" + Decimal(v2), k2, ':');
    assert id1 + ":v" + Decimal(v1) == (id1 + [':']) + ['v'] + Decimal(v1);
    assert id2 + ":v" + Decimal(v2) == (id2 + [':']) + ['v'] + Decimal(v2);
    DigitSuffixUnique(id1 + [':'], 'v', Decimal(v1), id2 + [':'], 'v', Decimal(v2));
    assert id1 == (id1 + [':'])[..|id1|] && id2 == (id2 + [':'])[..|id2|];
    DecimalInjective(v1, v2);
  }

  // ---------------------------------------------------------------- prefixes that can collide

  predicate Comparable(x: string, y: string) {
    x <= y || y <= x
  }

  ghost predicate Collide(x: string, y: string) {
    exists s, t :: IsTail(s) && IsTail(t) && x + s == y + t
  }

  lemma LongerTail(x: string, tail: string)
    requires IsTail(tail)
    ensures IsTail(x + tail)
  {
    var id: string, version: nat, edited: bool :| version > 0 && tail == TailOf(id, version, edited);
    assert x + tail == TailOf(x + id, version, edited);
  }

  lemma ATail() returns (tail: string)
    ensures IsTail(tail)
  {
    tail := TailOf([], 1, false);
  }

  lemma CollideSymmetric(x: string, y: string)
    requires Collide(x, y)
    ensures Collide(y, x)
  {
    var s, t :| IsTail(s) && IsTail(t) && x + s == y + t;
    assert y + t == x + s;
  }

  lemma PrefixCollides(x: string, y: string)
    requires x <= y
    ensures Collide(x, y)
  {
    var t := ATail();
    var rest := y[|x|..];
    LongerTail(rest, t);
    assert x + (rest + t) == y + t;
  }

  lemma CollideExactly(x: string, y: string)
    ensures Collide(x, y) <==> Comparable(x, y)
  {
    if Collide(x, y) {
      var s, t :| IsTail(s) && IsTail(t) && x + s == y + t;
      assert x == (x + s)[..|x|] && y == (y + t)[..|y|];
      assert Comparable(x, y);
    }
    if x <= y {
      PrefixCollides(x, y);
    } else if y <= x {
      PrefixCollides(y, x);
      CollideSymmetric(y, x);
    }
  }

  // ---------------------------------------------------------------- keys and traces of two tenants

  function TracePrefix(tenantId: string): string {
    "trace-" + tenantId + "-" + P.KeyPrefix(tenantId)
  }

  lemma TraceOfBuilt(a: ConfirmedAction, tail: string)
    requires a.idempotencyKey == P.KeyPrefix(a.tenantId) + tail
    ensures TraceId(a) == TracePrefix(a.tenantId) + tail
  {
  }

  /** One key under two tenants gives two trace ids. */
  lemma SameKeySameTrace(a: ConfirmedAction, b: ConfirmedAction)
    requires a.idempotencyKey == b.idempotencyKey && TraceId(a) == TraceId(b)
    ensures a.tenantId == b.tenantId
  {
    var k := "-" + a.idempotencyKey;
    var x, y := "trace-" + a.tenantId, "trace-" + b.tenantId;
    assert TraceId(a) == x + k && TraceId(b) == y + k;
    assert |x| == |y|;
    assert x == (x + k)[..|x|] && y == (y + k)[..|y|];
    assert a.tenantId == x[6..] && b.tenantId == y[6..];
  }

  /** Within one tenant keys and trace ids name each other. */
  lemma OneTenantAgrees(a: ConfirmedAction, b: ConfirmedAction)
    requires a.tenantId == b.tenantId
    ensures a.idempotencyKey == b.idempotencyKey <==> TraceId(a) == TraceId(b)
  {
    var x := "trace-" + a.tenantId + "-";
    assert TraceId(a) == x + a.idempotencyKey && TraceId(b) == x + b.idempotencyKey;
    assert a.idempotencyKey == (x + a.idempotencyKey)[|x|..] && b.idempotencyKey == (x + b.idempotencyKey)[|x|..];
  }

  ghost predicate KeysPrefixFree(tenants: set<string>) {
    forall t, u :: t in tenants && u in tenants && t != u ==> !Comparable(P.KeyPrefix(t), P.KeyPrefix(u))
  }

  ghost predicate TracesPrefixFree(tenants: set<string>) {
    forall t, u :: t in tenants && u in tenants && t != u ==> !Comparable(TracePrefix(t), TracePrefix(u))
  }

  lemma BuiltKeysDetermineTenant(tenants: set<string>, actions: set<ConfirmedAction>)
    requires KeysPrefixFree(tenants) && IssuedFor(tenants, actions)
    ensures KeyDeterminesTenant(actions)
  {
    forall a, b | a in actions && b in actions && a.idempotencyKey == b.idempotencyKey
      ensures a.tenantId == b.tenantId
    {
      var s := IssuedKey(a.tenantId, a);
      var t := IssuedKey(b.tenantId, b);
      assert Collide(P.KeyPrefix(a.tenantId), P.KeyPrefix(b.tenantId));
      CollideExactly(P.KeyPrefix(a.tenantId), P.KeyPrefix(b.tenantId));
    }
  }

  lemma BuiltKeysNameTraces(tenants: set<string>, actions: set<ConfirmedAction>)
    requires KeysPrefixFree(tenants) && TracesPrefixFree(tenants) && IssuedFor(tenants, actions)
    ensures KeysNameTraces(actions)
  {
    BuiltKeysDetermineTenant(tenants, actions);
    forall a, b | a in actions && b in actions && a.status == Confirmed && b.status == Confirmed
      ensures a.idempotencyKey == b.idempotencyKey <==> TraceId(a) == TraceId(b)
    {
      if TraceId(a) == TraceId(b) && a.tenantId != b.tenantId {
        var s := IssuedKey(a.tenantId, a);
        var t := IssuedKey(b.tenantId, b);
        TraceOfBuilt(a, s);
        TraceOfBuilt(b, t);
        assert Collide(TracePrefix(a.tenantId), TracePrefix(b.tenantId));
        CollideExactly(TracePrefix(a.tenantId), TracePrefix(b.tenantId));
        assert false;
      } else if a.tenantId == b.tenantId {
        OneTenantAgrees(a, b);
      }
    }
  }

  lemma KeyCollision(t: string, u: string) returns (a: ConfirmedAction, b: ConfirmedAction)
    requires Comparable(P.KeyPrefix(t), P.KeyPrefix(u))
    ensures Issuable(t, a) && Issuable(u, b) && a.tenantId == t && b.tenantId == u
    ensures a.status == Confirmed && b.status == Confirmed && a.idempotencyKey == b.idempotencyKey
  {
    CollideExactly(P.KeyPrefix(t), P.KeyPrefix(u));
    var x, y :| IsTail(x) && IsTail(y) && P.KeyPrefix(t) + x == P.KeyPrefix(u) + y;
    a := IssueTail(t, x);
    b := IssueTail(u, y);
  }

  lemma TraceCollision(t: string, u: string) returns (a: ConfirmedAction, b: ConfirmedAction)
    requires Comparable(TracePrefix(t), TracePrefix(u))
    ensures Issuable(t, a) && Issuable(u, b) && a.tenantId == t && b.tenantId == u
    ensures a.status == Confirmed && b.status == Confirmed && TraceId(a) == TraceId(b)
  {
    CollideExactly(TracePrefix(t), TracePrefix(u));
    var x, y :| IsTail(x) && IsTail(y) && TracePrefix(t) + x == TracePrefix(u) + y;
    a := IssueTail(t, x);
    b := IssueTail(u, y);
  }

  lemma TwoIssued(tenants: set<string>, a: ConfirmedAction, b: ConfirmedAction)
    requires a.tenantId in tenants && b.tenantId in tenants && Issuable(a.tenantId, a) && Issuable(b.tenantId, b)
    ensures IssuedFor(tenants, {a, b})
  {
    forall c | c in {a, b} ensures c.tenantId in tenants && Issuable(c.tenantId, c) {
      if c == a {
        assert c.tenantId == a.tenantId;
      } else {
        assert c == b;
      }
    }
  }

  lemma ComparableKeysShare(tenants: set<string>) returns (actions: set<ConfirmedAction>)
    requires !KeysPrefixFree(tenants)
    ensures IssuedFor(tenants, actions) && !KeyDeterminesTenant(actions) && !KeysNameTraces(actions)
  {
    var t, u :| t in tenants && u in tenants && t != u && Comparable(P.KeyPrefix(t), P.KeyPrefix(u));
    var a, b := KeyCollision(t, u);
    TwoIssued(tenants, a, b);
    if TraceId(a) == TraceId(b) {
      SameKeySameTrace(a, b);
    }
    actions := {a, b};
  }

  lemma ComparableTracesShare(tenants: set<string>) returns (actions: set<ConfirmedAction>)
    requires !TracesPrefixFree(tenants)
    ensures IssuedFor(tenants, actions) && !KeysNameTraces(actions)
  {
    var t, u :| t in tenants && u in tenants && t != u && Comparable(TracePrefix(t), TracePrefix(u));
    var a, b := TraceCollision(t, u);
    TwoIssued(tenants, a, b);
    if a.idempotencyKey == b.idempotencyKey {
      SameKeySameTrace(a, b);
    }
    actions := {a, b};
  }

  // ---------------------------------------------------------------- the protocol's promises for built actions

  ghost predicate NeverTwice(actions: set<ConfirmedAction>) {
    forall moves, key :: MovesOver(actions, moves) ==> ExecutedForKey(Exec(INITIAL, moves).executed, key) <= 1
  }

  /** Over the tenants of a deployment, every set of decided actions executes at most once per key in every
      interleaving, exactly when no tenant's key prefix extends another's. */
  lemma AtMostOnceForTenantsExactly(tenants: set<string>)
    ensures (forall actions :: IssuedFor(tenants, actions) ==> NeverTwice(actions)) <==> KeysPrefixFree(tenants)
  {
    if KeysPrefixFree(tenants) {
      forall actions | IssuedFor(tenants, actions) ensures NeverTwice(actions) {
        BuiltKeysDetermineTenant(tenants, actions);
        AtMostOncePerKeyExactly(actions);
      }
    } else {
      var actions := ComparableKeysShare(tenants);
      AtMostOncePerKeyExactly(actions);
      assert !NeverTwice(actions);
    }
  }

  /** The ledger agrees with the trace for every set of decided actions, whenever no call is in progress, exactly
      when neither key prefixes nor trace prefixes of two tenants extend one another. */
  lemma AgreementForTenantsExactly(tenants: set<string>)
    ensures (forall actions :: IssuedFor(tenants, actions) ==> AlwaysSettles(actions))
       <==> KeysPrefixFree(tenants) && TracesPrefixFree(tenants)
  {
    if KeysPrefixFree(tenants) && TracesPrefixFree(tenants) {
      forall actions | IssuedFor(tenants, actions) ensures AlwaysSettles(actions) {
        BuiltKeysNameTraces(tenants, actions);
        AgreementExactly(actions);
      }
    } else {
      var actions;
      if !KeysPrefixFree(tenants) {
        actions := ComparableKeysShare(tenants);
      } else {
        actions := ComparableTracesShare(tenants);
      }
      AgreementExactly(actions);
    }
  }

  lemma FirstSeparatorUnique(a: string, r: string, b: string, q: string, sep: char)
    requires sep !in a && sep !in b && a + [sep] + r <= b + [sep] + q
    ensures a == b
  {
    var x, y := a + [sep] + r, b + [sep] + q;
    assert x[|a|] == sep && y[|b|] == sep;
    assert forall k :: 0 <= k < |a| ==> x[k] == a[k] != sep;
    assert forall k :: 0 <= k < |b| ==> y[k] == b[k] != sep;
    assert |a| == |b|;
    assert a == x[..|a|] && b == y[..|b|];
  }

  /** The first colon after the head gives the tenant away. */
  lemma FirstColonTells(head: string, x: string, y: string, mid: string, restX: string, restY: string)
    requires ':' !in x && ':' !in y && ':' !in mid
    requires head + x + mid + [':'] + restX <= head + y + mid + [':'] + restY
    ensures x == y
  {
    var s, t := head + x + mid + [':'] + restX, head + y + mid + [':'] + restY;
    assert s[|head|..] == (x + mid) + [':'] + restX && t[|head|..] == (y + mid) + [':'] + restY;
    assert s[|head|..] <= t[|head|..];
    FirstSeparatorUnique(x + mid, restX, y + mid, restY, ':');
    assert x == (x + mid)[..|x|] && y == (y + mid)[..|y|];
  }

  lemma PrefixesByFirstColon(t: string)
    ensures P.KeyPrefix(t) == "tenant:" + t + [] + [':'] + "pa:"
    ensures TracePrefix(t) == "trace-" + t + "-tenant" + [':'] + (t + ":pa:")
  {
    assert P.KeyPrefix(t) == "tenant" + [':'] + (t + ":pa:");
    assert "-" + "tenant" == "-tenant";
  }

  lemma ColonFreePair(t: string, u: string)
    requires ':' !in t && ':' !in u && t != u
    ensures !(P.KeyPrefix(t) <= P.KeyPrefix(u)) && !(TracePrefix(t) <= TracePrefix(u))
  {
    PrefixesByFirstColon(t);
    PrefixesByFirstColon(u);
    if P.KeyPrefix(t) <= P.KeyPrefix(u) {
      FirstColonTells("tenant:", t, u, [], "pa:", "pa:");
      assert false;
    }
    if TracePrefix(t) <= TracePrefix(u) {
      FirstColonTells("trace-", t, u, "-tenant", t + ":pa:", u + ":pa:");
      assert false;
    }
  }

  /** Tenant ids without colons are always safe. */
  lemma ColonFreeTenantsAreSafe(tenants: set<string>)
    requires forall t :: t in tenants ==> ':' !in t
    ensures KeysPrefixFree(tenants) && TracesPrefixFree(tenants)
  {
    forall t, u | t in tenants && u in tenants && t != u
      ensures !Comparable(P.KeyPrefix(t), P.KeyPrefix(u)) && !Comparable(TracePrefix(t), TracePrefix(u))
    {
      ColonFreePair(t, u);
      ColonFreePair(u, t);
    }
  }
}
